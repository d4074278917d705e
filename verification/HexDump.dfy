/** The hex dump of samsung-ipc/ipc_utils.c: sixteen bytes a line, built in an 81-byte
    buffer and escaped into a 161-byte one that is then used as a format string. */
module HexDump {
  import opened Bytes
  import opened CStrings
  import opened HexCodec

  const LINE_BUFFER := 81
  const FINAL_BUFFER := 161
  const COLUMNS := 8
  const CELLS := 16
  const SPACE: byte := 32
  const PERCENT: byte := 37

  // ---------------------------------------------------------------- one line

  function UpperDigit(v: nat): byte
    requires v < 16
  {
    if v < 10 then (48 + v) as byte else (55 + v) as byte
  }

  /** At least `width` hex digits. */
  function Digits(v: nat, width: nat): (d: seq<byte>)
    ensures forall k | 0 <= k < |d| :: d[k] != PERCENT && d[k] != 0
    decreases v, width
  {
    if v == 0 && width == 0 then []
    else Digits(v / 16, if width == 0 then 0 else width - 1) + [HexDigit(v % 16)]
  }

  /** `[%04x]`. */
  function OffsetText(offset: nat): seq<byte> {
    [91] + Digits(offset, 4) + [93]
  }

  function Spaces(n: nat): seq<byte> {
    seq(n, _ => SPACE)
  }

  /** Two upper-case digits, or two blanks behind the end of the data. */
  function Cell(data: seq<byte>, at: nat): (c: seq<byte>)
    ensures |c| == 2 && forall k | 0 <= k < |c| :: c[k] != PERCENT && c[k] != 0
  {
    if at < |data| then [UpperDigit(data[at] as nat / 16), UpperDigit(data[at] as nat % 16)]
    else [SPACE, SPACE]
  }

  /** What separates cell `q` from the next. */
  function Separator(q: nat): seq<byte> {
    if q == CELLS - 1 then [] else if q == COLUMNS - 1 then [SPACE, SPACE] else [SPACE]
  }

  function Column(data: seq<byte>, at: nat, q: nat): (t: seq<byte>)
    ensures |t| == if q == CELLS - 1 then 2 else if q == COLUMNS - 1 then 4 else 3
  {
    Cell(data, at) + Separator(q)
  }

  /** Where cell `q` begins. */
  function CellColumn(q: nat): nat {
    3 * q + if COLUMNS <= q < CELLS then 1 else 0
  }

  /** The first `q` cells with their separators. */
  function Cells(data: seq<byte>, offset: nat, q: nat): (t: seq<byte>)
    requires q <= CELLS
  {
    if q == 0 then [] else Cells(data, offset, q - 1) + Column(data, offset + q - 1, q - 1)
  }

  lemma {:induction false} CellsLength(data: seq<byte>, offset: nat, q: nat)
    requires q <= CELLS
    ensures |Cells(data, offset, q)| == CellColumn(q)
  {
    if q > 0 {
      CellsLength(data, offset, q - 1);
    }
  }

  function Printable(b: byte): byte {
    if 32 <= b <= 126 then b else 46
  }

  function AsciiText(data: seq<byte>, offset: nat, q: nat): (t: seq<byte>)
    requires q <= CELLS
    ensures |t| == (if offset + q <= |data| then q else if offset < |data| then |data| - offset else 0)
                   + (if q >= COLUMNS && offset + COLUMNS < |data| then 1 else 0)
  {
    if q == 0 then []
    else AsciiText(data, offset, q - 1) + AsciiCell(data, offset + q - 1, q - 1)
  }

  /** Column `q`, with the gap behind the first half if there is a second. */
  function AsciiCell(data: seq<byte>, at: nat, q: nat): seq<byte> {
    (if at < |data| then [Printable(data[at])] else [])
    + (if q == COLUMNS - 1 && at + 1 < |data| then [SPACE] else [])
  }

  function Margin(offset: nat): seq<byte> {
    OffsetText(offset) + Spaces(3)
  }

  function Line(data: seq<byte>, offset: nat): seq<byte> {
    Margin(offset) + Cells(data, offset, CELLS) + Spaces(3) + AsciiText(data, offset, CELLS)
  }

  // ---------------------------------------------------------------- how long a line is

  lemma {:induction false} DigitsLength(v: nat, width: nat, n: nat, bound: nat)
    requires width <= n && bound == Power16(n)
    ensures |Digits(v, width)| >= width
    ensures |Digits(v, width)| <= n <==> v < bound
    decreases n
  {
    if v == 0 && width == 0 {
    } else if n == 0 {
      assert width == 0 && v >= 1;
    } else {
      DigitsLength(v / 16, if width == 0 then 0 else width - 1, n - 1, Power16(n - 1));
    }
  }

  function Power16(n: nat): (p: nat)
    ensures p > 0
  {
    if n == 0 then 1 else 16 * Power16(n - 1)
  }

  /** A full line and its NUL fit the 81-byte buffer exactly below offset 0x10000000; no
      shorter line is longer. */
  lemma LineFitsIff(data: seq<byte>, offset: nat)
    ensures offset < 0x1000_0000 ==> |Line(data, offset)| + 1 <= LINE_BUFFER
    ensures offset + CELLS <= |data| ==>
              (|Line(data, offset)| + 1 <= LINE_BUFFER <==> offset < 0x1000_0000)
  {
    SeventhPower();
    DigitsLength(offset, 4, 7, 0x1000_0000);
    CellsLength(data, offset, CELLS);
  }

  lemma SeventhPower()
    ensures Power16(7) == 0x1000_0000
  {
    assert Power16(4) == 0x1_0000;
  }

  // ---------------------------------------------------------------- escaping

  function Escape(s: seq<byte>): seq<byte> {
    if s == [] then []
    else Escape(s[..|s| - 1]) + if s[|s| - 1] == PERCENT then [PERCENT, PERCENT] else [s[|s| - 1]]
  }

  /** What a format string without arguments prints: `%%` stands for `%`; any other
      directive would be an error. */
  function Printed(f: seq<byte>): Option<seq<byte>>
    decreases |f|
  {
    if f == [] then Some([])
    else if f[0] != PERCENT then
      var rest := Printed(f[1..]);
      if rest.None? then None else Some([f[0]] + rest.value)
    else if |f| < 2 || f[1] != PERCENT then None
    else
      var rest := Printed(f[2..]);
      if rest.None? then None else Some([PERCENT] + rest.value)
  }

  lemma {:induction false} EscapeConcat(a: seq<byte>, b: seq<byte>)
    ensures Escape(a + b) == Escape(a) + Escape(b)
  {
    if b == [] {
      assert a + b == a;
    } else {
      var n := |b| - 1;
      assert (a + b)[..|a| + n] == a + b[..n];
      EscapeConcat(a, b[..n]);
    }
  }

  lemma EscapeOne(x: byte)
    ensures Escape([x]) == (if x as char == '%' then [x, x] else [x])
  {
    assert [x][..0] == [];
  }

  /** Reading the escaped line as a format string prints the line. */
  lemma {:induction false} PrintedEscape(s: seq<byte>)
    ensures Printed(Escape(s)) == Some(s)
  {
    if s != [] {
      PrintedEscape(s[1..]);
      assert s == [s[0]] + s[1..];
      EscapeConcat([s[0]], s[1..]);
      var head := if s[0] == PERCENT then [PERCENT, PERCENT] else [s[0]];
      assert Escape([s[0]]) == head;
      assert Escape(s) == head + Escape(s[1..]);
      assert Escape(s)[|head|..] == Escape(s[1..]);
    }
  }

  // ---------------------------------------------------------------- the line builder

  /** The first sixty bytes hold no '%', so at most 21 of the 81 are doubled. */
  ghost predicate Clean(buffer: array<byte>)
    reads buffer
  {
    buffer.Length == LINE_BUFFER && forall k | 0 <= k < 60 :: buffer[k] != PERCENT
  }

  /** `snprintf` of a text that fits, with its NUL; or characters stored one by one. */
  method Put(buffer: array<byte>, pos: nat, text: seq<byte>) returns (next: nat)
    requires Clean(buffer) && pos + |text| < LINE_BUFFER
    requires forall k | 0 <= k < |text| :: text[k] != PERCENT
    modifies buffer
    ensures Clean(buffer) && next == pos + |text|
    ensures buffer[..next] == old(buffer[..pos]) + text
  {
    forall k | 0 <= k < |text| {
      buffer[pos + k] := text[k];
    }
    buffer[pos + |text|] := 0;
    next := pos + |text|;
    assert buffer[..next] == old(buffer[..pos]) + text;
  }

  /** The byte at `offset`, or blanks at the end of the data. */
  method PutCell(buffer: array<byte>, pos: nat, data: seq<byte>, offset: nat, ghost at: nat)
    returns (next: nat)
    requires Clean(buffer) && pos + 2 < LINE_BUFFER
    requires if offset < |data| then at == offset else |data| <= at
    modifies buffer
    ensures Clean(buffer) && next == pos + 2
    ensures buffer[..next] == old(buffer[..pos]) + Cell(data, at)
  {
    if offset < |data| {
      var b := data[offset] as nat;
      assert Cell(data, at) == [UpperDigit(b / 16), UpperDigit(b % 16)];
      next := Put(buffer, pos, [UpperDigit(b / 16), UpperDigit(b % 16)]);
    } else {
      next := Put(buffer, pos, [SPACE, SPACE]);
    }
  }

  /** What stands behind cell `q`. */
  method PutSeparator(buffer: array<byte>, pos: nat, q: nat) returns (next: nat)
    requires Clean(buffer) && q < CELLS && pos + |Separator(q)| < LINE_BUFFER
    modifies buffer
    ensures Clean(buffer) && next == pos + |Separator(q)|
    ensures buffer[..next] == old(buffer[..pos]) + Separator(q)
  {
    next := pos;
    if q % COLUMNS != COLUMNS - 1 {
      next := Put(buffer, pos, [SPACE]);
    } else if q / COLUMNS != 1 {
      next := Put(buffer, pos, [SPACE, SPACE]);
    }
  }

  /** A cell with its separator. */
  method PutColumn(buffer: array<byte>, pos: nat, data: seq<byte>, offset: nat, q: nat,
                   ghost at: nat)
    returns (next: nat)
    requires Clean(buffer) && q < CELLS && pos + |Column(data, at, q)| < LINE_BUFFER
    requires offset == Min(at, |data|)
    modifies buffer
    ensures Clean(buffer) && next == pos + |Column(data, at, q)|
    ensures buffer[..next] == old(buffer[..pos]) + Column(data, at, q)
  {
    next := PutCell(buffer, pos, data, offset, at);
    ghost var cell := buffer[..next];
    next := PutSeparator(buffer, next, q);
    assert buffer[..next] == cell + Separator(q);
  }

  /** Cell `q` behind those before it. */
  method PutNext(buffer: array<byte>, pos: nat, data: seq<byte>, offset: nat, q: nat,
                 ghost start: nat, ghost before: seq<byte>)
    returns (next: nat)
    requires Clean(buffer) && q < CELLS && pos == |before| + CellColumn(q) && |before| + 48 < LINE_BUFFER
    requires offset == Min(start + q, |data|)
    requires buffer[..pos] == before + Cells(data, start, q)
    modifies buffer
    ensures Clean(buffer) && next == |before| + CellColumn(q + 1) < LINE_BUFFER
    ensures buffer[..next] == before + Cells(data, start, q + 1)
  {
    CellsNext(before, data, start, q);
    next := PutColumn(buffer, pos, data, offset, q, start + q);
  }

  /** The data columns, cell `q` being column `q % 8` of group `q / 8`; on return `offset`
      has advanced by `rollback`. */
  method PutCells(buffer: array<byte>, first: nat, data: seq<byte>, start: nat)
    returns (pos: nat, offset: nat, rollback: nat)
    requires Clean(buffer) && first + 48 < LINE_BUFFER && start < |data|
    modifies buffer
    ensures Clean(buffer) && pos == first + 48
    ensures buffer[..pos] == old(buffer[..first]) + Cells(data, start, CELLS)
    ensures rollback == Min(CELLS, |data| - start) && offset == start + rollback
  {
    pos, offset, rollback := first, start, 0;
    ghost var before := buffer[..first];
    assert buffer[..pos] == before + Cells(data, start, 0);
    var q := 0;
    while q < CELLS
      invariant q <= CELLS && Clean(buffer)
      invariant pos == first + CellColumn(q)
      invariant buffer[..pos] == before + Cells(data, start, q)
      invariant offset == start + rollback
      invariant offset == Min(start + q, |data|)
    {
      pos := PutNext(buffer, pos, data, offset, q, start, before);
      if offset < |data| {
        offset := offset + 1;
        rollback := rollback + 1;
      }
      q := q + 1;
    }
  }

  lemma CellsNext(before: seq<byte>, data: seq<byte>, offset: nat, q: nat)
    requires q < CELLS
    ensures CellColumn(q + 1) == CellColumn(q) + |Column(data, offset + q, q)| <= 48
    ensures before + Cells(data, offset, q + 1)
            == before + Cells(data, offset, q) + Column(data, offset + q, q)
  {
  }

  /** One character behind the first sixty. */
  method PutChar(buffer: array<byte>, pos: nat, c: byte) returns (next: nat)
    requires Clean(buffer) && 60 <= pos < LINE_BUFFER
    modifies buffer
    ensures Clean(buffer) && next == pos + 1
    ensures buffer[..next] == old(buffer[..pos]) + [c]
  {
    buffer[pos] := c;
    next := pos + 1;
  }

  method PutAsciiCell(buffer: array<byte>, pos: nat, data: seq<byte>, offset: nat, q: nat,
                      ghost at: nat)
    returns (next: nat, offset': nat)
    requires Clean(buffer) && 60 <= pos && pos + |AsciiCell(data, at, q)| < LINE_BUFFER
    requires offset == Min(at, |data|)
    modifies buffer
    ensures Clean(buffer) && next == pos + |AsciiCell(data, at, q)|
    ensures buffer[..next] == old(buffer[..pos]) + AsciiCell(data, at, q)
    ensures offset' == Min(at + 1, |data|)
  {
    next, offset' := pos, offset;
    if offset' < |data| {
      next := PutChar(buffer, next, Printable(data[offset']));
      offset' := offset' + 1;
    }
    if q == COLUMNS - 1 && offset' < |data| {
      next := PutChar(buffer, next, SPACE);
    }
  }

  lemma AsciiNext(before: seq<byte>, data: seq<byte>, offset: nat, q: nat)
    requires q < CELLS
    ensures |AsciiText(data, offset, q + 1)|
            == |AsciiText(data, offset, q)| + |AsciiCell(data, offset + q, q)| <= 17
    ensures before + AsciiText(data, offset, q + 1)
            == before + AsciiText(data, offset, q) + AsciiCell(data, offset + q, q)
  {
  }

  /** The character columns. */
  method PutAscii(buffer: array<byte>, first: nat, data: seq<byte>, start: nat)
    returns (pos: nat, offset: nat)
    requires Clean(buffer) && 60 <= first && first + 17 < LINE_BUFFER && start < |data|
    modifies buffer
    ensures Clean(buffer) && pos == first + |AsciiText(data, start, CELLS)|
    ensures buffer[..pos] == old(buffer[..first]) + AsciiText(data, start, CELLS)
    ensures offset == start + Min(CELLS, |data| - start)
  {
    pos, offset := first, start;
    ghost var before := buffer[..first];
    assert buffer[..pos] == before + AsciiText(data, start, 0);
    var q := 0;
    while q < CELLS
      invariant q <= CELLS && Clean(buffer)
      invariant pos == first + |AsciiText(data, start, q)|
      invariant buffer[..pos] == before + AsciiText(data, start, q)
      invariant offset == Min(start + q, |data|)
    {
      AsciiNext(before, data, start, q);
      pos, offset := PutAsciiCell(buffer, pos, data, offset, q, start + q);
      q := q + 1;
    }
  }

  /** The escaping loop runs over the whole line buffer, also over what earlier lines have
      left behind the NUL; the result never needs more than 102 of the 161 bytes. */
  method EscapeBuffer(buffer: array<byte>, final: array<byte>, ghost line: CString)
    requires Clean(buffer) && final.Length == FINAL_BUFFER && buffer != final
    requires |line| < LINE_BUFFER && buffer[..|line|] == line && buffer[|line|] == 0
    modifies final
    ensures Strndup(final[..]) == EscapedLine(line)
  {
    var j := 0;
    var i := 0;
    while i < LINE_BUFFER
      invariant i <= LINE_BUFFER
      invariant j <= if i <= 60 then i else 2 * i - 60
      invariant final[..j] == Escape(buffer[..i])
    {
      assert buffer[..i + 1][..i] == buffer[..i];
      if buffer[i] == PERCENT {
        final[j] := buffer[i];
        j := j + 1;
      }
      final[j] := buffer[i];
      j := j + 1;
      i := i + 1;
    }
    assert buffer[..i] == buffer[..];
    EscapedEndsAtNul(line, buffer[..], final[..], j);
  }

  lemma EscapedEndsAtNul(line: CString, bytes: seq<byte>, final: seq<byte>, j: nat)
    requires |line| < |bytes| && bytes[..|line|] == line && bytes[|line|] == 0
    requires j <= |final| && final[..j] == Escape(bytes)
    ensures Strndup(final) == EscapedLine(line)
  {
    var rest := bytes[|line| + 1..];
    assert bytes == line + [0] + rest;
    EscapeConcat(line + [0], rest);
    EscapeConcat(line, [0]);
    assert Escape([0]) == [0];
    StringThenTail(EscapedLine(line), Escape(rest), final, j);
  }

  lemma StringThenTail(head: CString, middle: seq<byte>, final: seq<byte>, j: nat)
    requires j <= |final| && final[..j] == head + [0] + middle
    ensures Strndup(final) == head
  {
    var tail := middle + final[j..];
    assert final == final[..j] + final[j..];
    assert head + [0] + middle + final[j..] == head + [0] + tail;
    StrndupStops(head, tail);
  }

  function EscapedLine(line: CString): CString {
    EscapeKeepsNul(line);
    Escape(line)
  }

  lemma {:induction false} EscapeKeepsNul(s: CString)
    ensures forall k | 0 <= k < |Escape(s)| :: Escape(s)[k] != 0
  {
    if s != [] {
      assert s[|s| - 1] != 0;
      EscapeKeepsNul(s[..|s| - 1]);
    }
  }

  lemma {:induction false} CellsKeepNul(data: seq<byte>, offset: nat, q: nat)
    requires q <= CELLS
    ensures forall k | 0 <= k < |Cells(data, offset, q)| :: Cells(data, offset, q)[k] != 0
  {
    if q > 0 {
      CellsKeepNul(data, offset, q - 1);
    }
  }

  lemma {:induction false} AsciiKeepsNul(data: seq<byte>, offset: nat, q: nat)
    requires q <= CELLS
    ensures forall k | 0 <= k < |AsciiText(data, offset, q)| :: AsciiText(data, offset, q)[k] != 0
  {
    if q > 0 {
      AsciiKeepsNul(data, offset, q - 1);
    }
  }

  function LineText(data: seq<byte>, offset: nat): CString {
    CellsKeepNul(data, offset, CELLS);
    AsciiKeepsNul(data, offset, CELLS);
    Line(data, offset)
  }

  /** The lines of a dump: one for every sixteen bytes begun. */
  function DumpLines(data: seq<byte>): seq<CString> {
    seq((|data| + 15) / 16, n requires 0 <= n < (|data| + 15) / 16 =>
      EscapedLine(LineText(data, CELLS * n)))
  }

  /** One pass of the outer loop up to the NUL: despite the rollback, `offset` ends as far
      behind its start as the line has bytes. */
  method BuildLine(buffer: array<byte>, data: seq<byte>, start: nat) returns (offset: nat)
    requires Clean(buffer) && start < |data| <= 0x1000_0000
    modifies buffer
    ensures Clean(buffer) && |LineText(data, start)| < LINE_BUFFER
    ensures buffer[..|LineText(data, start)|] == LineText(data, start)
    ensures buffer[|LineText(data, start)|] == 0
    ensures offset == start + Min(CELLS, |data| - start)
  {
    var pos := PutMargin(buffer, start);
    pos, offset := PutBody(buffer, pos, data, start, Margin(start));
    LineTextIs(data, start);
    buffer[pos] := 0;
  }

  lemma LineTextIs(data: seq<byte>, offset: nat)
    ensures LineText(data, offset) == Line(data, offset)
  {
  }

  /** The offset and the first spacer. */
  method PutMargin(buffer: array<byte>, start: nat) returns (pos: nat)
    requires Clean(buffer) && start < 0x1000_0000
    modifies buffer
    ensures Clean(buffer) && pos == |Margin(start)| && 9 <= pos <= 12
    ensures buffer[..pos] == Margin(start)
  {
    MarginFits(start);
    pos := Put(buffer, 0, OffsetText(start));
    pos := Put(buffer, pos, Spaces(3));
  }

  /** The columns, the second spacer and the characters. */
  method PutBody(buffer: array<byte>, first: nat, data: seq<byte>, start: nat,
                 ghost margin: seq<byte>)
    returns (pos: nat, offset: nat)
    requires Clean(buffer) && first <= 12 && start < |data| && 9 <= first
    requires buffer[..first] == margin
    modifies buffer
    ensures Clean(buffer) && pos < LINE_BUFFER
    ensures buffer[..pos] == margin + Cells(data, start, CELLS) + Spaces(3)
                             + AsciiText(data, start, CELLS)
    ensures offset == start + Min(CELLS, |data| - start)
  {
    CellsLength(data, start, CELLS);
    var rollback;
    pos, offset, rollback := PutCells(buffer, first, data, start);
    pos := Put(buffer, pos, Spaces(3));
    offset := offset - rollback;
    pos, offset := PutAscii(buffer, pos, data, offset);
  }

  lemma DumpLinesNext(data: seq<byte>, n: nat)
    requires n < |DumpLines(data)|
    ensures DumpLines(data)[n] == EscapedLine(LineText(data, CELLS * n))
    ensures DumpLines(data)[..n + 1] == DumpLines(data)[..n] + [DumpLines(data)[n]]
  {
    TakeNext(DumpLines(data), n);
  }

  lemma TakeNext<T>(s: seq<T>, n: nat)
    requires n < |s|
    ensures s[..n + 1] == s[..n] + [s[n]]
  {
  }

  /** `ipc_data_dump`, with the strings it logs.  Beyond the stated size the line buffer
      would overflow. */
  method DataDump(data: seq<byte>) returns (rc: int, lines: seq<CString>)
    requires |data| <= 0x1000_0000
    ensures rc == if data == [] then -1 else 0
    ensures lines == DumpLines(data)
  {
    lines := [];
    if |data| == 0 {
      return -1, [];
    }
    var buffer := new byte[LINE_BUFFER](_ => 0);
    var final := new byte[FINAL_BUFFER](_ => 0);
    var offset := 0;
    while offset < |data|
      invariant offset == Min(CELLS * |lines|, |data|) && Clean(buffer)
      invariant |lines| <= (|data| + 15) / 16
      invariant lines == DumpLines(data)[..|lines|]
    {
      ghost var start := offset;
      offset := BuildLine(buffer, data, offset);
      EscapeBuffer(buffer, final, LineText(data, start));
      DumpLinesNext(data, |lines|);
      lines := lines + [Strndup(final[..])];
    }
    return 0, lines;
  }

  lemma MarginFits(offset: nat)
    requires offset < 0x1000_0000
    ensures 9 <= |Margin(offset)| <= 12
  {
    SeventhPower();
    DigitsLength(offset, 4, 7, 0x1000_0000);
  }

  // ---------------------------------------------------------------- what a dump tells

  lemma {:induction false} CellsPrefix(data: seq<byte>, offset: nat, q: nat, n: nat)
    requires q <= n <= CELLS
    ensures Cells(data, offset, q) <= Cells(data, offset, n)
    decreases n
  {
    if q < n {
      CellsPrefix(data, offset, q, n - 1);
    }
  }

  /** The cell of a byte stands in its column, whatever the rest of the line. */
  lemma CellInCells(data: seq<byte>, offset: nat, q: nat, n: nat)
    requires q < n <= CELLS
    ensures CellColumn(q) + 2 <= |Cells(data, offset, n)|
    ensures Cells(data, offset, n)[CellColumn(q)] == Cell(data, offset + q)[0]
    ensures Cells(data, offset, n)[CellColumn(q) + 1] == Cell(data, offset + q)[1]
  {
    CellsLength(data, offset, n);
    CellsLength(data, offset, q + 1);
    LastCell(data, offset, q);
    CellsPrefix(data, offset, q + 1, n);
  }

  lemma LastCell(data: seq<byte>, offset: nat, q: nat)
    requires q < CELLS
    ensures CellColumn(q) + 2 <= |Cells(data, offset, q + 1)|
    ensures Cells(data, offset, q + 1)[CellColumn(q)] == Cell(data, offset + q)[0]
    ensures Cells(data, offset, q + 1)[CellColumn(q) + 1] == Cell(data, offset + q)[1]
  {
    CellsLength(data, offset, q);
    CellsLength(data, offset, q + 1);
  }

  lemma CellDetermines(a: seq<byte>, b: seq<byte>, at: nat)
    requires Cell(a, at) == Cell(b, at)
    ensures at < |a| <==> at < |b|
    ensures at < |a| ==> a[at] == b[at]
  {
    if at < |a| && at < |b| {
      UpperDigitInjective(a[at] as nat / 16, b[at] as nat / 16);
      UpperDigitInjective(a[at] as nat % 16, b[at] as nat % 16);
    }
  }

  lemma UpperDigitInjective(v: nat, w: nat)
    requires v < 16 && w < 16 && UpperDigit(v) == UpperDigit(w)
    ensures v == w
  {
  }

  lemma LineDetermines(a: seq<byte>, b: seq<byte>, offset: nat, q: nat)
    requires Line(a, offset) == Line(b, offset) && q < CELLS
    ensures offset + q < |a| <==> offset + q < |b|
    ensures offset + q < |a| ==> a[offset + q] == b[offset + q]
  {
    CellsInLine(a, offset);
    CellsInLine(b, offset);
    CellInCells(a, offset, q, CELLS);
    CellInCells(b, offset, q, CELLS);
    PairsEqual(Cell(a, offset + q), Cell(b, offset + q));
    CellDetermines(a, b, offset + q);
  }

  lemma CellsInLine(data: seq<byte>, offset: nat)
    ensures var m := |Margin(offset)|;
            m + 48 <= |Line(data, offset)| && Line(data, offset)[m..m + 48] == Cells(data, offset, CELLS)
  {
    CellsLength(data, offset, CELLS);
    MiddleOfLine(Margin(offset), Cells(data, offset, CELLS), Spaces(3),
                 AsciiText(data, offset, CELLS));
  }

  lemma MiddleOfLine(a: seq<byte>, b: seq<byte>, c: seq<byte>, d: seq<byte>)
    ensures (a + b + c + d)[|a|..|a| + |b|] == b
  {
  }

  lemma PairsEqual(a: seq<byte>, b: seq<byte>)
    requires |a| == |b| == 2 && a[0] == b[0] && a[1] == b[1]
    ensures a == b
  {
  }

  // ---------------------------------------------------------------- what a line shows

  /** The number that hex digits stand for. */
  function HexValue(s: seq<byte>): nat
    requires forall k | 0 <= k < |s| :: IsHexDigit(s[k])
  {
    if s == [] then 0 else 16 * HexValue(s[..|s| - 1]) + DigitValue(s[|s| - 1])
  }

  predicate LowerHex(d: seq<byte>): (lower: bool)
    ensures lower ==> forall k | 0 <= k < |d| :: IsHexDigit(d[k])
  {
    forall k | 0 <= k < |d| :: 48 <= d[k] <= 57 || 97 <= d[k] <= 102
  }

  /** `%x` with a minimal width: lower-case digits that read as the number, and leading zeros
      only up to that width. */
  lemma {:induction false} DigitsRead(v: nat, width: nat)
    ensures var d := Digits(v, width);
            && |d| >= width && LowerHex(d)
            && (|d| > width ==> d[0] != 48)
            && HexValue(d) == v
    decreases v, width
  {
    if v > 0 || width > 0 {
      var w := if width == 0 then 0 else width - 1;
      DigitsRead(v / 16, w);
      DigitRoundTrip(v % 16);
      var d := Digits(v / 16, w) + [HexDigit(v % 16)];
      assert d[..|d| - 1] == Digits(v / 16, w);
      if |Digits(v / 16, w)| == 0 {
        ZeroDigits(v / 16, w);
      }
    }
  }

  lemma ZeroDigits(v: nat, width: nat)
    requires Digits(v, width) == []
    ensures v == 0 && width == 0
  {
  }

  lemma UpperTable(v: nat)
    requires v < 16
    ensures UpperDigit(v) as char == "0123456789ABCDEF"[v]
  {
  }

  /** Column `q` shows its byte as two digits, or two blanks behind the data; everything
      between the columns is blank. */
  lemma CellShows(data: seq<byte>, offset: nat, q: nat)
    requires q < 16
    ensures var t, at := Cells(data, offset, 16), 3 * q + if q < 8 then 0 else 1;
            && |t| == 48
            && (offset + q < |data| ==>
                  && t[at] as char == "0123456789ABCDEF"[data[offset + q] as nat / 16]
                  && t[at + 1] as char == "0123456789ABCDEF"[data[offset + q] as nat % 16])
            && (offset + q >= |data| ==> t[at] == 32 && t[at + 1] == 32)
            && (q < 15 ==> t[at + 2] == 32)
            && (q == 7 ==> t[at + 3] == 32)
  {
    CellsLength(data, offset, 16);
    CellInCells(data, offset, q, 16);
    if offset + q < |data| {
      UpperTable(data[offset + q] as nat / 16);
      UpperTable(data[offset + q] as nat % 16);
    }
    GapInCells(data, offset, q);
  }

  lemma GapInCells(data: seq<byte>, offset: nat, q: nat)
    requires q < 16
    ensures |Cells(data, offset, 16)| == 48
    ensures q < 15 ==> Cells(data, offset, 16)[CellColumn(q) + 2] == 32
    ensures q == 7 ==> Cells(data, offset, 16)[CellColumn(q) + 3] == 32
  {
    CellsLength(data, offset, 16);
    CellsLength(data, offset, q);
    CellsLength(data, offset, q + 1);
    CellsPrefix(data, offset, q + 1, 16);
    GapBehind(Cells(data, offset, q), Column(data, offset + q, q));
  }

  lemma GapBehind(a: seq<byte>, b: seq<byte>)
    ensures forall k | 0 <= k < |b| :: (a + b)[|a| + k] == b[k]
  {
  }

  lemma {:induction false} AsciiPrefix(data: seq<byte>, offset: nat, q: nat, n: nat)
    requires q <= n <= CELLS
    ensures AsciiText(data, offset, q) <= AsciiText(data, offset, n)
    decreases n
  {
    if q < n {
      AsciiPrefix(data, offset, q, n - 1);
    }
  }

  /** The character column shows a printable byte as itself and any other as a point, with a
      blank between the halves. */
  lemma AsciiShows(data: seq<byte>, offset: nat, q: nat)
    requires q < 16 && offset + q < |data|
    ensures var t, at := AsciiText(data, offset, 16), q + if q < 8 then 0 else 1;
            && at < |t|
            && t[at] == (if 32 <= data[offset + q] < 127 then data[offset + q] else 46)
            && (q == 7 && offset + 8 < |data| ==> at + 1 < |t| && t[at + 1] == 32)
  {
    AsciiPrefix(data, offset, q + 1, 16);
    GapBehind(AsciiText(data, offset, q), AsciiCell(data, offset + q, q));
  }

  /** What is printed for line `n`: the offset in brackets, three blanks, the sixteen columns,
      three blanks, and the characters. */
  lemma LineShows(data: seq<byte>, n: nat)
    returns (offset: seq<byte>, columns: seq<byte>, chars: seq<byte>)
    requires n < |DumpLines(data)|
    ensures |DumpLines(data)| == (|data| + 15) / 16
    ensures Printed(DumpLines(data)[n])
            == Some([91] + offset + [93] + [32, 32, 32] + columns + [32, 32, 32] + chars)
    ensures |offset| >= 4 && (|offset| > 4 ==> offset[0] != 48)
    ensures LowerHex(offset) && HexValue(offset) == 16 * n
    ensures columns == Cells(data, 16 * n, 16) && chars == AsciiText(data, 16 * n, 16)
    ensures |chars| == if 16 * n + 16 <= |data| then 17
                       else |data| - 16 * n + if 16 * n + 8 < |data| then 1 else 0
  {
    offset, columns, chars := Digits(16 * n, 4), Cells(data, 16 * n, 16), AsciiText(data, 16 * n, 16);
    DigitsRead(16 * n, 4);
    LinePrinted(data, n);
    LineParts(data, 16 * n);
  }

  lemma LinePrinted(data: seq<byte>, n: nat)
    requires n < |DumpLines(data)|
    ensures Printed(DumpLines(data)[n]) == Some(Line(data, 16 * n))
  {
    DumpLinesNext(data, n);
    PrintedEscape(LineText(data, 16 * n));
    LineTextIs(data, 16 * n);
  }

  lemma LineParts(data: seq<byte>, offset: nat)
    ensures Line(data, offset)
            == [91] + Digits(offset, 4) + [93] + [32, 32, 32] + Cells(data, offset, 16) + [32, 32, 32]
               + AsciiText(data, offset, 16)
  {
    assert Spaces(3) == [32, 32, 32];
  }

  /** Every byte of the data is read off the printed lines: byte `q` of line `n` stands in the
      places of its column, as two digits and as a character. */
  lemma DumpShows(data: seq<byte>, n: nat, q: nat)
    returns (offset: seq<byte>, columns: seq<byte>, chars: seq<byte>)
    requires q < 16 && 16 * n + q < |data|
    ensures n < |DumpLines(data)| && |columns| == 48
    ensures Printed(DumpLines(data)[n])
            == Some([91] + offset + [93] + [32, 32, 32] + columns + [32, 32, 32] + chars)
    ensures LowerHex(offset) && HexValue(offset) == 16 * n
    ensures var b, x, y := data[16 * n + q], 3 * q + (if q < 8 then 0 else 1), q + (if q < 8 then 0 else 1);
            && columns[x] as char == "0123456789ABCDEF"[b as nat / 16]
            && columns[x + 1] as char == "0123456789ABCDEF"[b as nat % 16]
            && y < |chars| && chars[y] == (if 32 <= b < 127 then b else 46)
  {
    offset, columns, chars := LineShows(data, n);
    ByteShown(data, n, q, columns, chars);
  }

  lemma ByteShown(data: seq<byte>, n: nat, q: nat, columns: seq<byte>, chars: seq<byte>)
    requires q < 16 && 16 * n + q < |data|
    requires columns == Cells(data, 16 * n, 16) && chars == AsciiText(data, 16 * n, 16)
    ensures var b, x, y := data[16 * n + q], 3 * q + (if q < 8 then 0 else 1), q + (if q < 8 then 0 else 1);
            && |columns| == 48
            && columns[x] as char == "0123456789ABCDEF"[b as nat / 16]
            && columns[x + 1] as char == "0123456789ABCDEF"[b as nat % 16]
            && y < |chars| && chars[y] == (if 32 <= b < 127 then b else 46)
  {
    CellShows(data, 16 * n, q);
    AsciiShows(data, 16 * n, q);
  }

  /** The hex columns spell the data in order: a dump determines what was dumped. */
  lemma DumpDetermines(a: seq<byte>, b: seq<byte>)
    requires DumpLines(a) == DumpLines(b)
    ensures a == b
  {
    forall i: nat
      ensures (i < |a| <==> i < |b|) && (i < |a| && i < |b| ==> a[i] == b[i])
    {
      DumpDeterminesAt(a, b, i);
    }
    if |a| < |b| {
      DumpDeterminesAt(a, b, |a|);
    } else if |b| < |a| {
      DumpDeterminesAt(a, b, |b|);
    }
  }

  lemma DumpDeterminesAt(a: seq<byte>, b: seq<byte>, i: nat)
    requires DumpLines(a) == DumpLines(b)
    ensures i < |a| <==> i < |b|
    ensures i < |a| ==> a[i] == b[i]
  {
    var n, q := i / CELLS, i % CELLS;
    assert |DumpLines(a)| == (|a| + 15) / 16 && |DumpLines(b)| == (|b| + 15) / 16;
    if n < |DumpLines(a)| {
      var x, y := LineText(a, CELLS * n), LineText(b, CELLS * n);
      assert DumpLines(a)[n] == EscapedLine(x) && DumpLines(b)[n] == EscapedLine(y);
      PrintedEscape(x);
      PrintedEscape(y);
      LineDetermines(a, b, CELLS * n, q);
    }
  }
}
