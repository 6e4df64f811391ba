/** The deletion history of the cover matrix: a flat int array with a top
    index.  Every word is a tagged entry -- a checkpoint marker, a deleted row
    or a deleted column -- packed into the low two bits. */
module DelStack {

  /** Positions are shifted left by two bits, so a position must fit in 29 bits
      for the packed word to stay a non-negative 32-bit int. */
  const PosLimit: nat := 0x2000_0000

  datatype Entry = Marker | RowDeleted(pos: nat) | ColDeleted(pos: nat)

  datatype Option<T> = None | Some(value: T)

  predicate Encodable(e: Entry) {
    e.Marker? || e.pos < PosLimit
  }

  /** The packed word of an entry: `0` for a marker, `(pos << 2) | 1` for a row,
      `(pos << 2) | 3` for a column.  On non-negative ints below 2^31 the shift
      is a multiplication by four and the `|` an addition of the tag
      (`ShiftAgreement` checks this on 32-bit words). */
  function Encode(e: Entry): (w: int)
    requires Encodable(e)
    ensures 0 <= w < 0x8000_0000
    ensures w == 0 <==> e.Marker?
    ensures e.RowDeleted? ==> w % 4 == 1 && w / 4 == e.pos
    ensures e.ColDeleted? ==> w % 4 == 3 && w / 4 == e.pos
  {
    match e
    case Marker => 0
    case RowDeleted(p) => p * 4 + 1
    case ColDeleted(p) => p * 4 + 3
  }

  /** The arithmetic reading of `Encode` agrees with the shifts and masks on
      32-bit words: `(p << 2) | tag` has `tag` as its low two bits, `>> 2`
      gives `p` back, and as an int it is `4 * p + tag`, which is the word
      `Encode` gives for that position. */
  lemma ShiftAgreement(p: bv32)
    requires p < 0x2000_0000
    ensures ((p << 2) | 1) as int == (p as int) * 4 + 1
    ensures ((p << 2) | 3) as int == (p as int) * 4 + 3
    ensures ((p << 2) | 1) & 3 == 1 && ((p << 2) | 1) >> 2 == p
    ensures ((p << 2) | 3) & 3 == 3 && ((p << 2) | 3) >> 2 == p
  {
  }

  /** Reads a word back: the low two bits choose the kind, the rest is the
      position.  Words no push produces (negative, or a zero tag on a non-zero
      word, or tag `10`) are rejected. */
  function Decode(w: int): (r: Option<Entry>)
    ensures r.Some? ==> Encodable(r.value) && Encode(r.value) == w
    ensures (r.Some? && r.value.Marker?) <==> w == 0
  {
    if w == 0 then Some(Marker)
    else if w < 0 || w >= 0x8000_0000 then None
    else if w % 4 == 1 then Some(RowDeleted(w / 4))
    else if w % 4 == 3 then Some(ColDeleted(w / 4))
    else None
  }

  /** Decoding inverts encoding. */
  lemma DecodeEncode(e: Entry)
    requires Encodable(e)
    ensures Decode(Encode(e)) == Some(e)
  {
  }

  /** Different entries never share a word; in particular a marker is never
      mistaken for a row or a column deletion. */
  lemma EncodeInjective(e1: Entry, e2: Entry)
    requires Encodable(e1) && Encodable(e2)
    requires Encode(e1) == Encode(e2)
    ensures e1 == e2
  {
    DecodeEncode(e1);
    DecodeEncode(e2);
  }

  /** The raw array `mDelStack` and its top index `mStackTop`. */
  datatype Stack = Stack(slots: seq<int>, top: nat)

  predicate Valid(s: Stack) {
    s.top <= |s.slots|
  }

  /** The words currently on the stack, bottom first. */
  function Log(s: Stack): seq<int>
    requires Valid(s)
  {
    s.slots[..s.top]
  }

  function IsEmpty(s: Stack): (b: bool)
    requires Valid(s)
    ensures b <==> Log(s) == []
  {
    s.top == 0
  }

  /** Writes the slot at the old top and moves the top up by one; no other slot
      changes.  The array is not grown, so there must be room. */
  function Push(s: Stack, v: int): (t: Stack)
    requires Valid(s) && s.top < |s.slots|
    ensures Valid(t)
    ensures t.top == s.top + 1
    ensures |t.slots| == |s.slots|
    ensures t.slots[s.top] == v
    ensures forall i :: 0 <= i < |s.slots| && i != s.top ==> t.slots[i] == s.slots[i]
    ensures Log(t) == Log(s) + [v]
  {
    Stack(s.slots[s.top := v], s.top + 1)
  }

  /** Moves the top down by one and returns the word found there; the array
      itself is untouched, so the popped word stays behind as a stale slot. */
  function Pop(s: Stack): (r: (Stack, int))
    requires Valid(s) && s.top > 0
    ensures Valid(r.0)
    ensures r.0.top == s.top - 1
    ensures r.0.slots == s.slots
    ensures Log(r.0) + [r.1] == Log(s)
  {
    (Stack(s.slots, s.top - 1), s.slots[s.top - 1])
  }

  /** A pop right after a push gives back the pushed word and the old top. */
  lemma PushPop(s: Stack, v: int)
    requires Valid(s) && s.top < |s.slots|
    ensures Pop(Push(s, v)).1 == v
    ensures Pop(Push(s, v)).0.top == s.top
    ensures Log(Pop(Push(s, v)).0) == Log(s)
  {
  }

  function PushMarker(s: Stack): (t: Stack)
    requires Valid(s) && s.top < |s.slots|
    ensures Valid(t) && t.top == s.top + 1 && |t.slots| == |s.slots|
    ensures forall i :: 0 <= i < s.top ==> t.slots[i] == s.slots[i]
    ensures Log(t) == Log(s) + [0]
    ensures Decode(t.slots[s.top]) == Some(Marker)
  {
    Push(s, Encode(Marker))
  }

  function PushRow(s: Stack, rowPos: nat): (t: Stack)
    requires Valid(s) && s.top < |s.slots|
    requires rowPos < PosLimit
    ensures Valid(t) && t.top == s.top + 1 && |t.slots| == |s.slots|
    ensures forall i :: 0 <= i < s.top ==> t.slots[i] == s.slots[i]
    ensures Log(t) == Log(s) + [t.slots[s.top]]
    ensures Decode(t.slots[s.top]) == Some(RowDeleted(rowPos))
  {
    DecodeEncode(RowDeleted(rowPos));
    Push(s, Encode(RowDeleted(rowPos)))
  }

  function PushCol(s: Stack, colPos: nat): (t: Stack)
    requires Valid(s) && s.top < |s.slots|
    requires colPos < PosLimit
    ensures Valid(t) && t.top == s.top + 1 && |t.slots| == |s.slots|
    ensures forall i :: 0 <= i < s.top ==> t.slots[i] == s.slots[i]
    ensures Log(t) == Log(s) + [t.slots[s.top]]
    ensures Decode(t.slots[s.top]) == Some(ColDeleted(colPos))
  {
    DecodeEncode(ColDeleted(colPos));
    Push(s, Encode(ColDeleted(colPos)))
  }
}
