/** How arguments and results become bytes: appended at the back, consumed at the front. */
module RpcCodec {
  datatype Option<+T> = None | Some(value: T)

  type Byte = b: int | 0 <= b < 256

  /** a plain value of a fixed number of bytes, a string, or a vector of any of these */
  datatype Ty = PodT(size: nat) | StrT | VecT(item: Ty)

  datatype Val = Pod(bytes: seq<Byte>) | Str(chars: seq<Byte>) | Vec(items: seq<Val>)

  const SIZE_BYTES: nat := 8

  /** a size_t is less than this */
  const SIZE_LIMIT: nat := 0x1_0000_0000_0000_0000

  predicate Typed(v: Val, t: Ty)
    decreases v
  {
    match t
    case PodT(n) => v.Pod? && |v.bytes| == n
    case StrT => v.Str? && |v.chars| < SIZE_LIMIT
    case VecT(item) => v.Vec? && |v.items| < SIZE_LIMIT && forall i :: 0 <= i < |v.items| ==> Typed(v.items[i], item)
  }

  predicate AllTyped(vs: seq<Val>, ts: seq<Ty>) {
    |vs| == |ts| && forall i :: 0 <= i < |vs| ==> Typed(vs[i], ts[i])
  }

  // ---- sizes --------------------------------------------------------------------------------------------

  /** the low k bytes of n, lowest first */
  function Le(n: nat, k: nat): (bs: seq<Byte>)
    ensures |bs| == k
  {
    if k == 0 then [] else [n % 256] + Le(n / 256, k - 1)
  }

  function UnLe(bs: seq<Byte>): nat {
    if bs == [] then 0 else bs[0] + 256 * UnLe(bs[1..])
  }

  function Limit(k: nat): nat {
    if k == 0 then 1 else 256 * Limit(k - 1)
  }

  lemma {:induction false} LeRound(n: nat, k: nat)
    requires n < Limit(k)
    ensures UnLe(Le(n, k)) == n
  {
    if k > 0 {
      LeRound(n / 256, k - 1);
      assert Le(n, k)[1..] == Le(n / 256, k - 1);
    }
  }

  function SizeBytes(n: nat): (bs: seq<Byte>)
    ensures |bs| == SIZE_BYTES
  {
    Le(n, SIZE_BYTES)
  }

  lemma SizeRound(n: nat)
    requires n < SIZE_LIMIT
    ensures UnLe(SizeBytes(n)) == n
  {
    assert Limit(8) == SIZE_LIMIT by {
      assert Limit(0) == 1 && Limit(1) == 256 && Limit(2) == 256 * Limit(1) && Limit(3) == 256 * Limit(2);
      assert Limit(4) == 256 * Limit(3) && Limit(5) == 256 * Limit(4) && Limit(6) == 256 * Limit(5);
      assert Limit(7) == 256 * Limit(6) && Limit(8) == 256 * Limit(7);
    }
    LeRound(n, SIZE_BYTES);
  }

  // ---- values ---------------------------------------------------------------------------------------------

  function Encode(v: Val): seq<Byte> {
    match v
    case Pod(bytes) => bytes
    case Str(chars) => SizeBytes(|chars|) + chars
    case Vec(items) => SizeBytes(|items|) + EncodeAll(items)
  }

  function EncodeAll(vs: seq<Val>): seq<Byte> {
    if vs == [] then [] else Encode(vs[0]) + EncodeAll(vs[1..])
  }

  /** a value and what is left of the bytes; none when there are too few */
  datatype Decoded<T> = Short | Got(value: T, rest: seq<Byte>)

  function DecodeSize(bs: seq<Byte>): Decoded<nat> {
    if |bs| < SIZE_BYTES then Short else Got(UnLe(bs[..SIZE_BYTES]), bs[SIZE_BYTES..])
  }

  function Decode(t: Ty, bs: seq<Byte>): Decoded<Val>
    decreases t, 0
  {
    match t
    case PodT(n) => if |bs| < n then Short else Got(Pod(bs[..n]), bs[n..])
    case StrT =>
      (match DecodeSize(bs)
       case Short => Short
       case Got(n, rest) => if |rest| < n then Short else Got(Str(rest[..n]), rest[n..]))
    case VecT(item) =>
      (match DecodeSize(bs)
       case Short => Short
       case Got(n, rest) =>
         match DecodeMany(item, n, rest)
         case Short => Short
         case Got(items, rest') => Got(Vec(items), rest'))
  }

  /** n items of one type */
  function DecodeMany(item: Ty, n: nat, bs: seq<Byte>): Decoded<seq<Val>>
    decreases item, 1, n
  {
    if n == 0 then Got([], bs)
    else
      match Decode(item, bs)
      case Short => Short
      case Got(v, rest) =>
        match DecodeMany(item, n - 1, rest)
        case Short => Short
        case Got(vs, rest') => Got([v] + vs, rest')
  }

  /** one value of each type */
  function DecodeArgs(ts: seq<Ty>, bs: seq<Byte>): Decoded<seq<Val>> {
    if ts == [] then Got([], bs)
    else
      match Decode(ts[0], bs)
      case Short => Short
      case Got(v, rest) =>
        match DecodeArgs(ts[1..], rest)
        case Short => Short
        case Got(vs, rest') => Got([v] + vs, rest')
  }

  lemma SizeThen(n: nat, tail: seq<Byte>)
    requires n < SIZE_LIMIT
    ensures DecodeSize(SizeBytes(n) + tail) == Got(n, tail)
  {
    SizeRound(n);
    var bs := SizeBytes(n) + tail;
    assert bs[..SIZE_BYTES] == SizeBytes(n) && bs[SIZE_BYTES..] == tail;
  }

  /** Decoding an encoded value, whatever comes after it, gives it back and leaves exactly what comes after. */
  lemma {:induction false} RoundTrip(t: Ty, v: Val, tail: seq<Byte>)
    requires Typed(v, t)
    ensures Decode(t, Encode(v) + tail) == Got(v, tail)
    decreases v, 0
  {
    var bs := Encode(v) + tail;
    match v
    case Pod(bytes) => assert bs[..|bytes|] == bytes && bs[|bytes|..] == tail;
    case Str(chars) =>
      assert bs == SizeBytes(|chars|) + (chars + tail);
      SizeThen(|chars|, chars + tail);
      assert (chars + tail)[..|chars|] == chars && (chars + tail)[|chars|..] == tail;
    case Vec(items) =>
      assert bs == SizeBytes(|items|) + (EncodeAll(items) + tail);
      SizeThen(|items|, EncodeAll(items) + tail);
      ManyRoundTrip(t.item, items, tail);
  }

  lemma {:induction false} ManyRoundTrip(item: Ty, vs: seq<Val>, tail: seq<Byte>)
    requires forall i :: 0 <= i < |vs| ==> Typed(vs[i], item)
    ensures DecodeMany(item, |vs|, EncodeAll(vs) + tail) == Got(vs, tail)
    decreases vs, 1
  {
    if vs == [] {
      assert EncodeAll(vs) + tail == tail;
    } else {
      var rest := EncodeAll(vs[1..]) + tail;
      assert EncodeAll(vs) + tail == Encode(vs[0]) + rest;
      RoundTrip(item, vs[0], rest);
      ManyRoundTrip(item, vs[1..], tail);
      assert [vs[0]] + vs[1..] == vs;
    }
  }

  /** The same for a list of arguments. */
  lemma {:induction false} ArgsRoundTrip(ts: seq<Ty>, vs: seq<Val>, tail: seq<Byte>)
    requires AllTyped(vs, ts)
    ensures DecodeArgs(ts, EncodeAll(vs) + tail) == Got(vs, tail)
  {
    if vs == [] {
      assert EncodeAll(vs) + tail == tail;
    } else {
      var rest := EncodeAll(vs[1..]) + tail;
      assert EncodeAll(vs) + tail == Encode(vs[0]) + rest;
      RoundTrip(ts[0], vs[0], rest);
      ArgsRoundTrip(ts[1..], vs[1..], tail);
      assert [vs[0]] + vs[1..] == vs;
    }
  }

  /** For one list of types, no encoding continues another: the bytes say where they end. */
  lemma PrefixFree(ts: seq<Ty>, vs: seq<Val>, vtail: seq<Byte>, ws: seq<Val>, wtail: seq<Byte>)
    requires AllTyped(vs, ts) && AllTyped(ws, ts) && EncodeAll(vs) + vtail == EncodeAll(ws) + wtail
    ensures vs == ws && vtail == wtail
  {
    ArgsRoundTrip(ts, vs, vtail);
    ArgsRoundTrip(ts, ws, wtail);
  }

  // ---- what the bytes are -------------------------------------------------------------------------------------

  /** the number that eight bytes stand for, lowest first */
  function Eight(b: seq<Byte>): nat
    requires |b| == 8
  {
    b[0] as int + 0x100 * b[1] as int + 0x1_0000 * b[2] as int + 0x100_0000 * b[3] as int
    + 0x1_0000_0000 * b[4] as int + 0x100_0000_0000 * b[5] as int
    + 0x1_0000_0000_0000 * b[6] as int + 0x100_0000_0000_0000 * b[7] as int
  }

  lemma UnLeCons(bs: seq<Byte>)
    requires bs != []
    ensures UnLe(bs) == bs[0] + 256 * UnLe(bs[1..])
  {
  }

  lemma UnLeIsEight(b: seq<Byte>)
    requires |b| == 8
    ensures UnLe(b) == Eight(b)
  {
    hide UnLe;
    UnLeCons(b);
    UnLeCons(b[1..]);
    assert b[1..][1..] == b[2..];
    UnLeCons(b[2..]);
    assert b[2..][1..] == b[3..];
    UnLeCons(b[3..]);
    assert b[3..][1..] == b[4..];
    UnLeCons(b[4..]);
    assert b[4..][1..] == b[5..];
    UnLeCons(b[5..]);
    assert b[5..][1..] == b[6..];
    UnLeCons(b[6..]);
    assert b[6..][1..] == b[7..];
    UnLeCons(b[7..]);
    UnLeNone(b);
  }

  lemma UnLeNone(b: seq<Byte>)
    requires |b| == 8
    ensures UnLe(b[7..][1..]) == 0
  {
  }

  /** A plain value is its own bytes; a string or vector is its length in eight bytes, lowest first, and then its
      characters, or its items one after the other. */
  lemma Wire(v: Val)
    requires v.Str? ==> |v.chars| < 0x1_0000_0000_0000_0000
    requires v.Vec? ==> |v.items| < 0x1_0000_0000_0000_0000
    ensures v.Pod? ==> Encode(v) == v.bytes
    ensures !v.Pod? ==> |Encode(v)| >= 8
    ensures v.Str? ==> Eight(Encode(v)[..8]) == |v.chars| && Encode(v)[8..] == v.chars
    ensures v.Vec? ==> Eight(Encode(v)[..8]) == |v.items| && Encode(v)[8..] == EncodeAll(v.items)
  {
    if v.Str? {
      SizeRound(|v.chars|);
      UnLeIsEight(SizeBytes(|v.chars|));
      assert Encode(v)[..8] == SizeBytes(|v.chars|) && Encode(v)[8..] == v.chars;
    } else if v.Vec? {
      SizeRound(|v.items|);
      UnLeIsEight(SizeBytes(|v.items|));
      assert Encode(v)[..8] == SizeBytes(|v.items|) && Encode(v)[8..] == EncodeAll(v.items);
    }
  }

  /** Values follow each other in the order given. */
  lemma WireInOrder(vs: seq<Val>, v: Val)
    ensures EncodeAll([]) == [] && EncodeAll([v] + vs) == Encode(v) + EncodeAll(vs)
  {
    assert ([v] + vs)[1..] == vs;
  }
}
