/** The call list of samsung-ipc/call.c: a count, then entries of variable length.  The
    walker reads length bytes before it knows whether they lie in the buffer, so memory is
    a function on all addresses and the buffer is its first `size` bytes. */
module CallList {
  import opened Bytes
  import opened CStrings

  const HEADER_SIZE := 1
  const ENTRY_SIZE := 8
  const LENGTH_FIELD := 6

  type Memory = nat -> byte

  /** Where the `k`-th entry starts when the length fields are followed. */
  function Start(mem: Memory, k: nat): (offset: nat)
    ensures offset >= HEADER_SIZE + ENTRY_SIZE * k
  {
    if k == 0 then HEADER_SIZE
    else
      var o := Start(mem, k - 1);
      o + ENTRY_SIZE + mem(o + LENGTH_FIELD) as nat
  }

  /** The entry with this index is announced and ends inside the buffer. */
  predicate Present(mem: Memory, size: nat, index: nat) {
    size >= HEADER_SIZE && index < mem(0) as nat && Start(mem, index + 1) <= size
  }

  // ---------------------------------------------------------------- the functions

  /** `ipc_call_list_count_extract`. */
  method CountExtract(mem: Memory, size: nat) returns (count: byte)
    ensures count == if size < HEADER_SIZE then 0 else mem(0)
  {
    if size < HEADER_SIZE {
      return 0;
    }
    return mem(0);
  }

  /** `ipc_call_list_entry_extract`; a pointer is its offset in `mem`, `None` the null
      pointer.  The loop counter is eight bits wide and does not wrap. */
  method EntryExtract(mem: Memory, size: nat, index: nat) returns (entry: Option<nat>)
    ensures entry == if Present(mem, size, index) then Some(Start(mem, index)) else None
  {
    var count := CountExtract(mem, size);
    if count == 0 || index >= count as nat {
      return None;
    }
    var offset := HEADER_SIZE;
    var e := 0;
    var i: byte := 0;
    while (i as nat) < index + 1
      invariant i as nat <= index + 1 && offset == Start(mem, i as nat)
      invariant i > 0 ==> e == Start(mem, i as nat - 1)
    {
      e := offset;
      offset := offset + ENTRY_SIZE + mem(e + LENGTH_FIELD) as nat;
      i := i + 1;
    }
    if offset > size {
      return None;
    }
    return Some(e);
  }

  function Slice(mem: Memory, at: nat, n: nat): (b: seq<byte>)
    ensures |b| == n
  {
    seq(n, i requires 0 <= i < n => mem(at + i))
  }

  /** `ipc_call_list_entry_number_extract`, seen as the C string it returns. */
  method NumberExtract(mem: Memory, entry: nat) returns (number: CString)
    ensures number == Strndup(Slice(mem, entry + ENTRY_SIZE, mem(entry + LENGTH_FIELD) as nat))
  {
    var length := mem(entry + LENGTH_FIELD) as nat;
    var source := Slice(mem, entry + ENTRY_SIZE, length);
    var buffer := Strncpy(source) + [0];
    PaddedString(source);
    number := Strndup(buffer);
  }

  lemma PaddedString(b: seq<byte>)
    ensures Strndup(Strncpy(b) + [0]) == Strndup(b)
  {
    StrndupPrefix(b);
    var n := |b| - |Strndup(b)|;
    assert Zeros(n) + [0] == [0] + Zeros(n);
    assert Strncpy(b) + [0] == Strndup(b) + [0] + Zeros(n);
    StrndupStops(Strndup(b), Zeros(n));
  }

  // ---------------------------------------------------------------- arbitrary bytes

  lemma {:induction false} StartsIncrease(mem: Memory, j: nat, k: nat)
    requires j <= k
    ensures Start(mem, j) + ENTRY_SIZE * (k - j) <= Start(mem, k)
  {
    if j < k {
      StartsIncrease(mem, j, k - 1);
    }
  }

  /** If the walker returns an entry, every length byte it has read and every entry it has
      passed lay inside the buffer. */
  lemma WalkStaysInside(mem: Memory, size: nat, index: nat, k: nat)
    requires Present(mem, size, index) && k <= index
    ensures Start(mem, k) + LENGTH_FIELD < size
    ensures Start(mem, k) + ENTRY_SIZE + mem(Start(mem, k) + LENGTH_FIELD) as nat <= size
  {
    StartsIncrease(mem, k + 1, index + 1);
  }

  /** Two memories that agree on the buffer give the same starts up to the first that
      leaves the buffer. */
  lemma {:induction false} StartsAgree(mem: Memory, other: Memory, size: nat, k: nat)
    requires forall i | 0 <= i < size :: mem(i) == other(i)
    ensures Start(mem, k) <= size ==> Start(other, k) == Start(mem, k)
    ensures Start(mem, k) > size ==> Start(other, k) > size
  {
    if k > 0 {
      StartsAgree(mem, other, size, k - 1);
    }
  }

  /** The late bounds check suffices: what lies behind the buffer never decides whether an
      entry is returned, nor which. */
  lemma ResultIsLocal(mem: Memory, other: Memory, size: nat, index: nat)
    requires forall i | 0 <= i < size :: mem(i) == other(i)
    ensures Present(mem, size, index) <==> Present(other, size, index)
    ensures Present(mem, size, index) ==> Start(mem, index) == Start(other, index)
  {
    if Present(mem, size, index) {
      PresentElsewhere(mem, other, size, index);
    } else if Present(other, size, index) {
      PresentElsewhere(other, mem, size, index);
    }
  }

  lemma PresentElsewhere(mem: Memory, other: Memory, size: nat, index: nat)
    requires forall i | 0 <= i < size :: mem(i) == other(i)
    requires Present(mem, size, index)
    ensures Present(other, size, index) && Start(mem, index) == Start(other, index)
  {
    StartsAgree(mem, other, size, index + 1);
    StartsAgree(mem, other, size, index);
    StartsIncrease(mem, index, index + 1);
  }

  // ---------------------------------------------------------------- serialised lists

  datatype Entry = Entry(fields: seq<byte>, unknown: byte, number: seq<byte>) {
    /** Six one-byte fields before the length, and a length that fits one byte. */
    predicate Valid() {
      |fields| == LENGTH_FIELD && |number| < 256
    }

    function Bytes(): (b: seq<byte>)
      requires Valid()
      ensures |b| == ENTRY_SIZE + |number|
    {
      fields + [|number| as byte, unknown] + number
    }
  }

  /** The entry as it lies in the buffer: eight bytes and the number. */
  lemma EntryLayout(e: Entry)
    requires e.Valid()
    ensures var b := e.Bytes();
            && |b| == 8 + |e.number| && b[..6] == e.fields && b[6] as nat == |e.number|
            && b[7] == e.unknown && b[8..] == e.number
  {
    assert e.Bytes()[..6] == e.fields && e.Bytes()[8..] == e.number;
  }

  function Serialised(es: seq<Entry>): seq<byte>
    requires forall e | e in es :: e.Valid()
  {
    if es == [] then [] else Serialised(es[..|es| - 1]) + es[|es| - 1].Bytes()
  }

  /** The buffer holds a list of these entries. */
  ghost predicate HoldsList(mem: Memory, size: nat, es: seq<Entry>) {
    && |es| < 256
    && (forall e | e in es :: e.Valid())
    && size == HEADER_SIZE + |Serialised(es)|
    && mem(0) as nat == |es|
    && Slice(mem, HEADER_SIZE, |Serialised(es)|) == Serialised(es)
  }

  lemma {:induction false} SerialisedPrefix(es: seq<Entry>, k: nat)
    requires (forall e | e in es :: e.Valid()) && k <= |es|
    ensures Serialised(es[..k]) <= Serialised(es)
    decreases |es|
  {
    if k == |es| {
      assert es[..k] == es;
    } else {
      var n := |es| - 1;
      assert es[..n][..k] == es[..k];
      SerialisedPrefix(es[..n], k);
    }
  }

  lemma EntryPlaced(mem: Memory, size: nat, es: seq<Entry>, k: nat)
    requires HoldsList(mem, size, es) && k < |es| && es[k].Valid()
    ensures Serialised(es[..k + 1]) == Serialised(es[..k]) + es[k].Bytes()
    ensures Slice(mem, HEADER_SIZE + |Serialised(es[..k])|, |es[k].Bytes()|) == es[k].Bytes()
  {
    SerialisedPrefix(es, k + 1);
    assert es[..k + 1][..k] == es[..k];
    SliceOfPrefix(mem, HEADER_SIZE, Serialised(es[..k]), es[k].Bytes(), Serialised(es));
  }

  /** Following the length fields finds where each entry was put. */
  lemma {:induction false} StartOfSerialised(mem: Memory, size: nat, es: seq<Entry>, k: nat)
    requires HoldsList(mem, size, es) && k <= |es|
    ensures Start(mem, k) == HEADER_SIZE + |Serialised(es[..k])|
  {
    if k > 0 {
      StartOfSerialised(mem, size, es, k - 1);
      var e := es[k - 1];
      assert e in es;
      EntryPlaced(mem, size, es, k - 1);
      EntryLength(mem, Start(mem, k - 1), e);
    }
  }

  lemma SliceOfPrefix(mem: Memory, at: nat, a: seq<byte>, b: seq<byte>, all: seq<byte>)
    requires a + b <= all && Slice(mem, at, |all|) == all
    ensures Slice(mem, at + |a|, |b|) == b
  {
    forall i | 0 <= i < |b|
      ensures mem(at + |a| + i) == b[i]
    {
      assert Slice(mem, at, |all|)[|a| + i] == mem(at + |a| + i);
      assert all[|a| + i] == (a + b)[|a| + i];
    }
  }

  /** Extracting from a serialised list returns its entries, all of them and no more, with
      their bytes; numbers come back up to their first NUL, so whole if they have none. */
  lemma ExtractSerialised(mem: Memory, size: nat, es: seq<Entry>, index: nat)
    requires HoldsList(mem, size, es)
    ensures Present(mem, size, index) <==> index < |es|
    ensures index < |es| ==>
              var o, e := Start(mem, index), es[index];
              && Slice(mem, o, |e.Bytes()|) == e.Bytes()
              && mem(o + LENGTH_FIELD) as nat == |e.number|
              && Slice(mem, o + ENTRY_SIZE, |e.number|) == e.number
              && ((forall i | 0 <= i < |e.number| :: e.number[i] != 0) ==> Strndup(e.number) == e.number)
  {
    if index < |es| {
      assert es[index] in es;
      StartOfSerialised(mem, size, es, index);
      StartOfSerialised(mem, size, es, index + 1);
      SerialisedPrefix(es, index + 1);
      EntryPlaced(mem, size, es, index);
      EntryInMemory(mem, Start(mem, index), es[index]);
    }
  }

  lemma EntryLength(mem: Memory, o: nat, e: Entry)
    requires e.Valid() && Slice(mem, o, |e.Bytes()|) == e.Bytes()
    ensures mem(o + LENGTH_FIELD) as nat == |e.number|
  {
    var b := e.Bytes();
    assert mem(o + LENGTH_FIELD) == Slice(mem, o, |b|)[LENGTH_FIELD] == b[LENGTH_FIELD];
  }

  lemma EntryInMemory(mem: Memory, o: nat, e: Entry)
    requires e.Valid() && Slice(mem, o, |e.Bytes()|) == e.Bytes()
    ensures mem(o + LENGTH_FIELD) as nat == |e.number|
    ensures Slice(mem, o + ENTRY_SIZE, |e.number|) == e.number
    ensures (forall i | 0 <= i < |e.number| :: e.number[i] != 0) ==> Strndup(e.number) == e.number
  {
    var b := e.Bytes();
    EntryLength(mem, o, e);
    SliceOfPrefix(mem, o, b[..ENTRY_SIZE], e.number, b);
    if forall i | 0 <= i < |e.number| :: e.number[i] != 0 {
      StrndupWhole(e.number);
    }
  }
}
