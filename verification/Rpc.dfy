/** A call through the in-process transport: payload, dispatch, reply. */
module Rpc {
  import opened RpcCodec

  /** leads a reply that carries an error message instead of a result */
  const EXCEPTION_MARKER: nat := SIZE_LIMIT - 1

  const ZEROS: seq<Byte> := [0, 0, 0, 0, 0, 0, 0, 0]

  /** bs are the codes of the characters of s */
  predicate Spells(bs: seq<Byte>, s: string) {
    |bs| == |s| && forall i :: 0 <= i < |s| ==> bs[i] == s[i] as int
  }

  /** the bytes of a message */
  function Text(s: string): (bs: seq<Byte>)
    ensures (forall i :: 0 <= i < |s| ==> s[i] as int < 256) ==> Spells(bs, s)
  {
    seq(|s|, i requires 0 <= i < |s| => s[i] as int % 256)
  }

  lemma NoHandlerSpelled()
    ensures Spells(Text("xtd::rpc: no handler for call"), "xtd::rpc: no handler for call")
    ensures |Text("xtd::rpc: no handler for call")| < SIZE_LIMIT
  {
    var s := "xtd::rpc: no handler for call";
    assert forall i :: 0 <= i < |s| ==> s[i] as int < 256;
  }

  lemma NotRunningSpelled()
    ensures Spells(Text("null_transport server not running"), "null_transport server not running")
  {
    var s := "null_transport server not running";
    assert forall i :: 0 <= i < |s| ==> s[i] as int < 256;
  }

  /** what a handler does: it returns a value or throws an exception with a message */
  datatype Outcome = Returns(v: Val) | Throws(what: seq<Byte>)

  /** a remote procedure: its id and its types */
  datatype CallType = CallType(id: nat, params: seq<Ty>, ret: Ty)

  /** a server entry; S is what handlers may read and change */
  datatype Entry<!S> = Entry(call: CallType, handler: (S, seq<Val>) -> (S, Outcome))

  /** what the client's caller gets; `Garbled` stands for a reply that is too short */
  datatype Reply = Value(v: Val) | Error(what: seq<Byte>) | Garbled

  /** the handler keeps to its types, and its messages fit in a payload */
  ghost predicate Keeps<S(!new)>(e: Entry<S>) {
    forall s, args :: AllTyped(args, e.call.params) ==> Fits(e.handler(s, args).1, e.call.ret)
  }

  predicate Fits(out: Outcome, ret: Ty) {
    match out
    case Returns(v) => Typed(v, ret)
    case Throws(what) => |what| < SIZE_LIMIT
  }

  // ---- the bytes of a reply ---------------------------------------------------------------------------------

  function ErrorBytes(what: seq<Byte>): seq<Byte> {
    SizeBytes(EXCEPTION_MARKER) + Encode(Str(what))
  }

  function Answer(id: nat, out: Outcome): seq<Byte> {
    match out
    case Returns(v) => SizeBytes(id) + Encode(v)
    case Throws(what) => ErrorBytes(what)
  }

  /** the first entry for an id */
  function Dispatch<S>(entries: seq<Entry<S>>, id: nat, from: nat := 0): (j: nat)
    requires from <= |entries|
    ensures from <= j <= |entries|
    ensures j < |entries| ==> entries[j].call.id == id
    ensures forall i :: from <= i < j ==> entries[i].call.id != id
    decreases |entries| - from
  {
    if from == |entries| || entries[from].call.id == id then from else Dispatch(entries, id, from + 1)
  }

  /** what serving a call does to the handlers' state, and what it answers */
  function Served<S>(entries: seq<Entry<S>>, s: S, id: nat, args: seq<Val>, from: nat := 0): (S, seq<Byte>)
    requires from <= |entries|
  {
    var j := Dispatch(entries, id, from);
    if j == |entries| then (s, ErrorBytes(Text("xtd::rpc: no handler for call")))
    else
      var r := entries[j].handler(s, args);
      (r.0, Answer(id, r.1))
  }

  function Read(ret: Ty, bs: seq<Byte>): Reply {
    match DecodeSize(bs)
    case Short => Garbled
    case Got(id, rest) =>
      if id == EXCEPTION_MARKER then
        match Decode(StrT, rest)
        case Short => Garbled
        case Got(what, _) => Error(what.chars)
      else
        match Decode(ret, rest)
        case Short => Garbled
        case Got(v, _) => Value(v)
  }

  lemma ReadError(ret: Ty, what: seq<Byte>)
    requires |what| < SIZE_LIMIT
    ensures Read(ret, ErrorBytes(what)) == Error(what)
  {
    SizeThen(EXCEPTION_MARKER, Encode(Str(what)));
    RoundTrip(StrT, Str(what), []);
    assert Encode(Str(what)) + [] == Encode(Str(what));
  }

  /** A reply is read as what the handler did, unless the call's id is the one that marks exceptions:
      then a result is never read as one. */
  lemma AnswerRead(id: nat, ret: Ty, out: Outcome)
    requires id < SIZE_LIMIT && Fits(out, ret)
    ensures out.Throws? ==> Read(ret, Answer(id, out)) == Error(out.what)
    ensures out.Returns? ==> (Read(ret, Answer(id, out)) == Value(out.v) <==> id != 0xFFFF_FFFF_FFFF_FFFF)
  {
    match out
    case Throws(what) => ReadError(ret, what);
    case Returns(v) =>
      SizeThen(id, Encode(v));
      RoundTrip(ret, v, []);
      assert Encode(v) + [] == Encode(v);
  }

  // ---- the payload --------------------------------------------------------------------------------------------

  lemma {:induction false} EncodeAllAppend(a: seq<Val>, b: seq<Val>)
    ensures EncodeAll(a + b) == EncodeAll(a) + EncodeAll(b)
  {
    if a == [] {
      assert a + b == b;
    } else {
      assert (a + b)[1..] == a[1..] + b;
      EncodeAllAppend(a[1..], b);
    }
  }

  lemma EncodeOneMore(vs: seq<Val>, i: nat)
    requires i < |vs|
    ensures EncodeAll(vs[..i + 1]) == EncodeAll(vs[..i]) + Encode(vs[i])
  {
    EncodeAllAppend(vs[..i], [vs[i]]);
    assert vs[..i + 1] == vs[..i] + [vs[i]] && [vs[i]][1..] == [];
  }

  class Payload {
    var bytes: seq<Byte>

    /** room for the length, nothing else */
    constructor ()
      ensures bytes == ZEROS
    {
      bytes := ZEROS;
    }

    method Reset()
      modifies this
      ensures bytes == ZEROS
    {
      bytes := ZEROS;
    }

    method Insert(bs: seq<Byte>)
      modifies this
      ensures bytes == old(bytes) + bs
    {
      bytes := bytes + bs;
    }

    method EraseFront(n: nat)
      requires n <= |bytes|
      modifies this
      ensures bytes == old(bytes)[n..]
    {
      bytes := bytes[n..];
    }

    /** writes the payload's own length over its first bytes */
    method EmbedLength()
      requires |bytes| >= SIZE_BYTES
      modifies this
      ensures bytes == SizeBytes(|old(bytes)|) + old(bytes)[SIZE_BYTES..]
    {
      bytes := SizeBytes(|bytes|) + bytes[SIZE_BYTES..];
    }

    method Peek() returns (n: nat)
      requires |bytes| >= SIZE_BYTES
      ensures n == UnLe(bytes[..SIZE_BYTES])
    {
      n := UnLe(bytes[..SIZE_BYTES]);
    }

    method MarshalSize(n: nat)
      modifies this
      ensures bytes == old(bytes) + SizeBytes(n)
    {
      Insert(SizeBytes(n));
    }

    method Marshal(v: Val)
      modifies this
      ensures bytes == old(bytes) + Encode(v)
      decreases v
    {
      match v {
        case Pod(bs) => Insert(bs);
        case Str(chars) =>
          MarshalSize(|chars|);
          Insert(chars);
          assert old(bytes) + SizeBytes(|chars|) + chars == old(bytes) + Encode(v);
        case Vec(items) =>
          MarshalSize(|items|);
          var i := 0;
          while i < |items|
            invariant 0 <= i <= |items|
            invariant bytes == old(bytes) + SizeBytes(|items|) + EncodeAll(items[..i])
          {
            Marshal(items[i]);
            EncodeOneMore(items, i);
            i := i + 1;
          }
          assert items[..i] == items;
          assert old(bytes) + SizeBytes(|items|) + EncodeAll(items) == old(bytes) + Encode(v);
      }
    }

    /** the arguments, first to last */
    method MarshalAll(vs: seq<Val>)
      modifies this
      ensures bytes == old(bytes) + EncodeAll(vs)
    {
      if vs != [] {
        Marshal(vs[0]);
        MarshalAll(vs[1..]);
      }
    }

    /** nothing when there are too few bytes */
    method UnmarshalSize() returns (n: Option<nat>)
      modifies this
      ensures match DecodeSize(old(bytes))
              case Short => n.None?
              case Got(m, rest) => n == Some(m) && bytes == rest
    {
      if |bytes| < SIZE_BYTES {
        return None;
      }
      n := Some(UnLe(bytes[..SIZE_BYTES]));
      EraseFront(SIZE_BYTES);
    }

    method Unmarshal(t: Ty) returns (v: Option<Val>)
      modifies this
      ensures match Decode(t, old(bytes))
              case Short => v.None?
              case Got(x, rest) => v == Some(x) && bytes == rest
      decreases t, 0
    {
      match t {
        case PodT(n) =>
          if |bytes| < n {
            return None;
          }
          v := Some(Pod(bytes[..n]));
          EraseFront(n);
        case StrT =>
          var n := UnmarshalSize();
          if n.None? || |bytes| < n.value {
            return None;
          }
          v := Some(Str(bytes[..n.value]));
          EraseFront(n.value);
        case VecT(item) =>
          var n := UnmarshalSize();
          if n.None? {
            return None;
          }
          var items := UnmarshalMany(item, n.value);
          v := if items.Some? then Some(Vec(items.value)) else None;
      }
    }

    /** counts down the items still to come */
    method UnmarshalMany(item: Ty, n: nat) returns (vs: Option<seq<Val>>)
      modifies this
      ensures match DecodeMany(item, n, old(bytes))
              case Short => vs.None?
              case Got(xs, rest) => vs == Some(xs) && bytes == rest
      decreases item, 1
    {
      var items, len := [], n;
      NothingRead(DecodeMany(item, n, bytes));
      while len > 0
        invariant 0 <= len <= n
        invariant Continues(DecodeMany(item, n, old(bytes)), items, DecodeMany(item, len, bytes))
      {
        ghost var before := bytes;
        var v := Unmarshal(item);
        if v.None? {
          return None;
        }
        items := OneMore(items, v.value, DecodeMany(item, n, old(bytes)), DecodeMany(item, len, before),
                         DecodeMany(item, len - 1, bytes));
        len := len - 1;
      }
      assert items + [] == items;
      vs := Some(items);
    }

    /** an argument of each type */
    method UnmarshalArgs(ts: seq<Ty>) returns (vs: Option<seq<Val>>)
      modifies this
      ensures match DecodeArgs(ts, old(bytes))
              case Short => vs.None?
              case Got(xs, rest) => vs == Some(xs) && bytes == rest
    {
      if ts == [] {
        return Some([]);
      }
      var v := Unmarshal(ts[0]);
      if v.None? {
        return None;
      }
      var rest := UnmarshalArgs(ts[1..]);
      vs := if rest.Some? then Some([v.value] + rest.value) else None;
    }
  }

  /** a list is decoded as what has been read so far and what the rest is decoded as */
  predicate Continues(whole: Decoded<seq<Val>>, items: seq<Val>, rest: Decoded<seq<Val>>) {
    match rest
    case Short => whole.Short?
    case Got(vs, bs) => whole == Got(items + vs, bs)
  }

  lemma NothingRead(whole: Decoded<seq<Val>>)
    ensures Continues(whole, [], whole)
  {
    assert whole.Got? ==> [] + whole.value == whole.value;
  }

  function OneMore(items: seq<Val>, v: Val, ghost whole: Decoded<seq<Val>>, ghost now: Decoded<seq<Val>>,
                   ghost next: Decoded<seq<Val>>): (r: seq<Val>)
    requires Continues(whole, items, now)
    requires if next.Short? then now.Short? else now == Got([v] + next.value, next.rest)
    ensures r == items + [v] && Continues(whole, r, next)
  {
    assert next.Got? ==> items + ([v] + next.value) == (items + [v]) + next.value;
    items + [v]
  }

  // ---- server, transport, client ----------------------------------------------------------------------------------

  class Server<S(!new)> {
    const entries: seq<Entry<S>>
    var state: S

    constructor (entries: seq<Entry<S>>, state: S)
      ensures this.entries == entries && this.state == state
    {
      this.entries, this.state := entries, state;
    }

    /** Serves the call in the payload, from entry i on, and leaves the answer there. */
    method Invoke(p: Payload, i: nat, ghost id: nat, ghost args: seq<Val>)
      requires i <= |entries| && id < SIZE_LIMIT && p.bytes == SizeBytes(id) + EncodeAll(args)
      requires var j := Dispatch(entries, id, i); j < |entries| ==> AllTyped(args, entries[j].call.params)
      modifies this, p
      ensures var r := Served(entries, old(state), id, args, i); state == r.0 && p.bytes == ZEROS + r.1
      decreases |entries| - i
    {
      SizeThen(id, EncodeAll(args));
      if i == |entries| {
        p.Reset();
        p.MarshalSize(EXCEPTION_MARKER);
        p.Marshal(Str(Text("xtd::rpc: no handler for call")));
        Regroup(SizeBytes(EXCEPTION_MARKER), Encode(Str(Text("xtd::rpc: no handler for call"))));
        return;
      }
      var asked := p.Peek();
      if entries[i].call.id != asked {
        Invoke(p, i + 1, id, args);
        return;
      }
      Handle(p, entries[i], id, args);
    }

    method Handle(p: Payload, e: Entry<S>, ghost id: nat, ghost args: seq<Val>)
      requires id < SIZE_LIMIT && e.call.id == id && p.bytes == SizeBytes(id) + EncodeAll(args)
               && AllTyped(args, e.call.params)
      modifies this, p
      ensures var r := e.handler(old(state), args); state == r.0 && p.bytes == ZEROS + Answer(id, r.1)
    {
      SizeThen(id, EncodeAll(args));
      ArgsRoundTrip(e.call.params, args, []);
      assert EncodeAll(args) + [] == EncodeAll(args);
      var _ := p.UnmarshalSize();
      var given := p.UnmarshalArgs(e.call.params);
      var r := e.handler(state, given.value);
      state := r.0;
      p.Reset();
      match r.1 {
        case Returns(v) =>
          p.MarshalSize(e.call.id);
          p.Marshal(v);
          Regroup(SizeBytes(id), Encode(v));
        case Throws(what) =>
          p.MarshalSize(EXCEPTION_MARKER);
          p.Marshal(Str(what));
          Regroup(SizeBytes(EXCEPTION_MARKER), Encode(Str(what)));
      }
    }
  }

  lemma Regroup(a: seq<Byte>, b: seq<Byte>)
    ensures ZEROS + a + b == ZEROS + (a + b)
  {
  }

  class NullTransport<S(!new)> {
    var server: Server?<S>

    constructor ()
      ensures server == null
    {
      server := null;
    }

    method StartServer(s: Server<S>)
      modifies this
      ensures server == s
    {
      server := s;
    }

    method StopServer()
      modifies this
      ensures server == null
    {
      server := null;
    }

    /** hands the payload to the server and back; false when there is none */
    method Transact(p: Payload, ghost id: nat, ghost args: seq<Val>) returns (running: bool)
      requires id < SIZE_LIMIT && p.bytes == ZEROS + (SizeBytes(id) + EncodeAll(args))
      requires server != null ==>
        var j := Dispatch(server.entries, id); j < |server.entries| ==> AllTyped(args, server.entries[j].call.params)
      modifies p, server
      ensures running == (server != null)
      ensures running ==> var r := Served(server.entries, old(server.state), id, args);
                          server.state == r.0 && p.bytes == r.1
    {
      running := server != null;
      if running {
        p.EmbedLength();
        var _ := p.UnmarshalSize();
        assert p.bytes == SizeBytes(id) + EncodeAll(args);
        server.Invoke(p, 0, id, args);
        var _ := p.UnmarshalSize();
      }
    }

    /** The client's side of a call. When the server's first entry for this id is of this call's types, the
        handler has run once, on the same arguments, and the caller gets what calling it directly gives -
        unless the call's id is the exception marker and the handler returned a result, which is then never
        what the caller gets. */
    method Call(call: CallType, args: seq<Val>) returns (reply: Reply)
      requires call.id < SIZE_LIMIT && AllTyped(args, call.params)
      requires server != null ==>
        var j := Dispatch(server.entries, call.id); j < |server.entries| ==>
          server.entries[j].call == call && Keeps(server.entries[j])
      modifies server
      ensures server == null ==>
        reply.Error? && Spells(reply.what, "null_transport server not running")
      ensures server != null ==>
        var j := Dispatch(server.entries, call.id);
        if j == |server.entries| then
          && server.state == old(server.state)
          && reply.Error? && Spells(reply.what, "xtd::rpc: no handler for call")
        else
          var r := server.entries[j].handler(old(server.state), args);
          && server.state == r.0
          && match r.1
             case Returns(v) => reply == Value(v) <==> call.id != 0xFFFF_FFFF_FFFF_FFFF
             case Throws(what) => reply == Error(what)
    {
      hide Text, Spells;
      NoHandlerSpelled();
      NotRunningSpelled();
      var p := new Payload();
      p.MarshalSize(call.id);
      p.MarshalAll(args);
      Regroup(SizeBytes(call.id), EncodeAll(args));
      var running := Transact(p, call.id, args);
      if !running {
        return Error(Text("null_transport server not running"));
      }
      ghost var j := Dispatch(server.entries, call.id);
      if j == |server.entries| {
        ReadError(call.ret, Text("xtd::rpc: no handler for call"));
      } else {
        AnswerRead(call.id, call.ret, server.entries[j].handler(old(server.state), args).1);
      }
      reply := ReadReply(p, call.ret);
    }

    /** reads a reply: an error message, or the result */
    method ReadReply(p: Payload, ret: Ty) returns (reply: Reply)
      modifies p
      ensures reply == Read(ret, old(p.bytes))
    {
      var id := p.UnmarshalSize();
      if id.None? {
        return Garbled;
      }
      if id.value == EXCEPTION_MARKER {
        var what := p.Unmarshal(StrT);
        return if what.Some? then Error(what.value.chars) else Garbled;
      }
      var v := p.Unmarshal(ret);
      return if v.Some? then Value(v.value) else Garbled;
    }
  }

  // ---- whose handler serves a call ----------------------------------------------------------------------------------

  predicate DistinctIds<S>(entries: seq<Entry<S>>) {
    forall i, j :: 0 <= i < j < |entries| ==> entries[i].call.id != entries[j].call.id
  }

  /** what serving the call with the id of entry j gives, by j's own handler */
  function ServedBy<S>(entries: seq<Entry<S>>, j: nat, s: S, args: seq<Val>): (S, seq<Byte>)
    requires j < |entries|
  {
    var r := entries[j].handler(s, args);
    (r.0, Answer(entries[j].call.id, r.1))
  }

  /** Every call reaches its own entry exactly when no two entries have the same id; it is then served
      by its own handler. */
  lemma EachServesItsOwn<S(!new)>(entries: seq<Entry<S>>)
    ensures DistinctIds(entries) <==> forall j :: 0 <= j < |entries| ==> Dispatch(entries, entries[j].call.id) == j
    ensures DistinctIds(entries) ==>
              forall j, s, args :: 0 <= j < |entries| ==>
                Served(entries, s, entries[j].call.id, args) == ServedBy(entries, j, s, args)
  {
    if DistinctIds(entries) {
      forall j | 0 <= j < |entries| ensures Dispatch(entries, entries[j].call.id) == j {
        var d := Dispatch(entries, entries[j].call.id);
        assert d <= j;
      }
    } else {
      var i, j :| 0 <= i < j < |entries| && entries[i].call.id == entries[j].call.id;
      assert Dispatch(entries, entries[j].call.id) <= i;
    }
  }
}
