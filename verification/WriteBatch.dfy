/** Write batches (db/write_batch.cc): a sequence number, a count and the operations, in
    one byte string that is also the log record and is replayed into the memtable.
 */
module WriteBatches {
  import opened Coding
  import opened Comparator
  import opened Dbformat
  import opened Options

  /** kHeader */
  const HEADER: nat := 12
  const MAX_COUNT: nat := 0x8000_0000

  datatype Op = PutOp(key: Bytes, value: Bytes) | DeleteOp(key: Bytes)

  datatype Status = OK | TooSmall | BadPut | BadDelete | UnknownTag | WrongCount

  /** The length of a string is stored in 32 bits. */
  predicate Fits(op: Op) {
    |op.key| < MAX32 && (op.PutOp? ==> |op.value| < MAX32)
  }

  predicate AllFit(ops: seq<Op>) {
    |ops| < MAX_COUNT && forall i :: 0 <= i < |ops| ==> Fits(ops[i])
  }

  function Coded(op: Op): (s: Bytes)
    ensures s != []
  {
    match op
    case PutOp(key, value) => [1] + LengthPrefixed(key) + LengthPrefixed(value)
    case DeleteOp(key) => [0] + LengthPrefixed(key)
  }

  function Body(ops: seq<Op>): Bytes {
    if ops == [] then [] else Coded(ops[0]) + Body(ops[1..])
  }

  lemma Assoc<T>(a: seq<T>, b: seq<T>, c: seq<T>)
    ensures a + b + c == a + (b + c)
  {
  }

  lemma {:induction false} BodyAppends(a: seq<Op>, b: seq<Op>)
    ensures Body(a + b) == Body(a) + Body(b)
  {
    hide Coded;
    if a == [] {
      assert a + b == b;
    } else {
      BodyAppends(a[1..], b);
      assert (a + b)[1..] == a[1..] + b;
      Assoc(Coded(a[0]), Body(a[1..]), Body(b));
    }
  }

  /** The byte string of a batch. */
  function Rep(first: nat, ops: seq<Op>): (s: Bytes)
    ensures |s| == HEADER + |Body(ops)|
  {
    Fixed(first, 8) + Fixed(|ops|, 4) + Body(ops)
  }

  /** WriteBatchInternal::Count, an int */
  function Count(rep: Bytes): int
    requires |rep| >= HEADER
  {
    var c := Unfixed(rep[8..12]);
    if c >= MAX_COUNT then c - MAX32 else c
  }

  function Sequence(rep: Bytes): nat
    requires |rep| >= HEADER
  {
    Unfixed(rep[..8])
  }

  lemma RepParts(first: nat, ops: seq<Op>)
    requires first < MAX64 && |ops| < MAX_COUNT
    ensures Count(Rep(first, ops)) == |ops| && Sequence(Rep(first, ops)) == first
    ensures |Rep(first, ops)| >= HEADER && Rep(first, ops)[HEADER..] == Body(ops)
  {
    Fixed64RoundTrip(first);
    Fixed32RoundTrip(|ops|);
    assert Rep(first, ops)[..8] == Fixed(first, 8);
    assert Rep(first, ops)[8..12] == Fixed(|ops|, 4);
  }

  /** The operations handed to the handler before the input ends or goes wrong. */
  function ReadOps(input: Bytes): (seq<Op>, Status)
    decreases |input|
  {
    if input == [] then ([], OK)
    else if input[0] == 1 then
      match GetLengthPrefixed(input[1..])
      case None => ([], BadPut)
      case Some(k) =>
        match GetLengthPrefixed(k.rest)
        case None => ([], BadPut)
        case Some(v) => var (ops, status) := ReadOps(v.rest); ([PutOp(k.slice, v.slice)] + ops, status)
    else if input[0] == 0 then
      match GetLengthPrefixed(input[1..])
      case None => ([], BadDelete)
      case Some(k) => var (ops, status) := ReadOps(k.rest); ([DeleteOp(k.slice)] + ops, status)
    else ([], UnknownTag)
  }

  /** What was put in comes out, and the input is consumed exactly. */
  lemma {:induction false} BodyRoundTrip(ops: seq<Op>)
    requires forall i :: 0 <= i < |ops| ==> Fits(ops[i])
    ensures ReadOps(Body(ops)) == (ops, OK)
  {
    hide LengthPrefixed, GetLengthPrefixed, Coded;
    if ops != [] {
      BodyRoundTrip(ops[1..]);
      OpRoundTrip(ops[0], Body(ops[1..]));
      assert [ops[0]] + ops[1..] == ops;
    }
  }

  /** One operation at the front of the input. */
  lemma OpRoundTrip(op: Op, rest: Bytes)
    requires Fits(op)
    ensures ReadOps(Coded(op) + rest) == ([op] + ReadOps(rest).0, ReadOps(rest).1)
  {
    hide LengthPrefixed, GetLengthPrefixed;
    var input := Coded(op) + rest;
    LengthPrefixedRoundTrip(op.key, if op.PutOp? then LengthPrefixed(op.value) + rest else rest);
    match op
    case PutOp(key, value) =>
      Assoc([1], LengthPrefixed(key), LengthPrefixed(value));
      Assoc([1], LengthPrefixed(key) + LengthPrefixed(value), rest);
      Assoc(LengthPrefixed(key), LengthPrefixed(value), rest);
      Front(1, LengthPrefixed(key) + (LengthPrefixed(value) + rest));
      LengthPrefixedRoundTrip(value, rest);
    case DeleteOp(key) =>
      Assoc([0], LengthPrefixed(key), rest);
      Front(0, LengthPrefixed(key) + rest);
  }

  lemma Front(tag: Byte, tail: Bytes)
    ensures ([tag] + tail)[0] == tag && ([tag] + tail)[1..] == tail
  {
  }

  /** What was put in before something else is still handed to the handler. */
  lemma {:induction false} OpsThenRest(ops: seq<Op>, rest: Bytes)
    requires forall i :: 0 <= i < |ops| ==> Fits(ops[i])
    ensures ReadOps(Body(ops) + rest) == (ops + ReadOps(rest).0, ReadOps(rest).1)
  {
    hide LengthPrefixed, GetLengthPrefixed, Coded;
    if ops == [] {
      assert Body(ops) + rest == rest && ops + ReadOps(rest).0 == ReadOps(rest).0;
    } else {
      OpsThenRest(ops[1..], rest);
      OpRoundTrip(ops[0], Body(ops[1..]) + rest);
      Assoc(Coded(ops[0]), Body(ops[1..]), rest);
      Assoc([ops[0]], ops[1..], ReadOps(rest).0);
      assert [ops[0]] + ops[1..] == ops;
    }
  }

  /** What goes wrong in a damaged batch: a tag above 1, or a key or value that is not all there. */
  lemma DamagedOps(tag: Byte, key: Bytes, s: Bytes)
    ensures tag > 1 ==> ReadOps([tag] + s) == ([], UnknownTag)
    ensures GetLengthPrefixed(s) == None ==>
              ReadOps([1] + s) == ([], BadPut) && ReadOps([0] + s) == ([], BadDelete)
    ensures |key| < MAX32 && GetLengthPrefixed(s) == None ==> ReadOps([1] + LengthPrefixed(key) + s) == ([], BadPut)
  {
    hide LengthPrefixed, GetLengthPrefixed;
    Front(tag, s);
    Front(1, s);
    Front(0, s);
    if |key| < MAX32 {
      LengthPrefixedRoundTrip(key, s);
      Assoc([1], LengthPrefixed(key), s);
      Front(1, LengthPrefixed(key) + s);
    }
  }

  /** A whole batch, byte by byte: eight of the sequence number, four of the count, then tag 1 with a
      key and a value, or tag 0 with a key. */
  lemma BatchBytes(first: nat, key: Bytes, value: Bytes, gone: Bytes)
    requires first < 0x1_0000_0000 && |key| < 0x80 && |value| < 0x80 && |gone| < 0x80
    ensures Rep(first, [PutOp(key, value), DeleteOp(gone)])
            == [first % 0x100, first / 0x100 % 0x100, first / 0x1_0000 % 0x100, first / 0x100_0000, 0, 0, 0, 0]
               + [2, 0, 0, 0] + ([1] + ([|key|] + key) + ([|value|] + value)) + ([0] + ([|gone|] + gone))
  {
    hide Fixed, LengthPrefixed;
    FixedHalves(first);
    FixedBytes(first);
    FixedBytes(0);
    FixedBytes(2);
    PrefixedBytes(key);
    PrefixedBytes(value);
    PrefixedBytes(gone);
    var ops := [PutOp(key, value), DeleteOp(gone)];
    var a, b := Coded(ops[0]), Coded(ops[1]);
    assert Body([]) == [] && b + [] == b && Body([ops[1]]) == b + Body([ops[1]][1..]);
    assert ops[1..] == [ops[1]] && Body(ops) == a + b;
    assert Rep(first, ops) == Fixed(first, 8) + Fixed(2, 4) + (a + b);
  }

  /** WriteBatch::Iterate */
  method Iterate(rep: Bytes) returns (ops: seq<Op>, status: Status)
    ensures |rep| < HEADER ==> ops == [] && status == TooSmall
    ensures |rep| >= HEADER ==>
              && ops == ReadOps(rep[HEADER..]).0
              && status == if ReadOps(rep[HEADER..]).1 == OK && |ops| != Count(rep) then WrongCount
                 else ReadOps(rep[HEADER..]).1
  {
    hide GetLengthPrefixed;
    ops := [];
    if |rep| < HEADER {
      return ops, TooSmall;
    }
    var input := rep[HEADER..];
    var found := 0;
    assert [] + ReadOps(input).0 == ReadOps(input).0;
    while input != []
      invariant found == |ops|
      invariant ops + ReadOps(input).0 == ReadOps(rep[HEADER..]).0 && ReadOps(input).1 == ReadOps(rep[HEADER..]).1
      decreases |input|
    {
      found := found + 1;
      var tag := input[0];
      CutsShrink(input[1..]);
      if tag == 1 {
        var key := GetLengthPrefixed(input[1..]);
        if key.None? {
          return ops, BadPut;
        }
        CutsShrink(key.value.rest);
        var value := GetLengthPrefixed(key.value.rest);
        if value.None? {
          return ops, BadPut;
        }
        Regroup(ops, PutOp(key.value.slice, value.value.slice), ReadOps(value.value.rest).0);
        ops := ops + [PutOp(key.value.slice, value.value.slice)];
        input := value.value.rest;
      } else if tag == 0 {
        var key := GetLengthPrefixed(input[1..]);
        if key.None? {
          return ops, BadDelete;
        }
        Regroup(ops, DeleteOp(key.value.slice), ReadOps(key.value.rest).0);
        ops := ops + [DeleteOp(key.value.slice)];
        input := key.value.rest;
      } else {
        return ops, UnknownTag;
      }
    }
    if found != Count(rep) {
      return ops, WrongCount;
    }
    return ops, OK;
  }

  lemma CutsShrink(s: Bytes)
    ensures GetLengthPrefixed(s).Some? ==> |GetLengthPrefixed(s).value.rest| <= |s|
  {
  }

  lemma Regroup(a: seq<Op>, op: Op, b: seq<Op>)
    ensures a + ([op] + b) == a + [op] + b
  {
  }

  /** MemTableInserter: consecutive sequence numbers from `first` on. */
  function Numbered(first: nat, ops: seq<Op>): (es: seq<Entry>)
    requires first + |ops| <= MAX_SEQUENCE + 1
    ensures |es| == |ops|
    ensures forall i :: 0 <= i < |es| ==>
              && es[i].key == InternalKey(ops[i].key, first + i, if ops[i].PutOp? then TypeValue else TypeDeletion)
              && es[i].value == if ops[i].PutOp? then ops[i].value else []
  {
    seq(|ops|, i requires 0 <= i < |ops| =>
      match ops[i]
      case PutOp(key, value) => Entry(InternalKey(key, first + i, TypeValue), value)
      case DeleteOp(key) => Entry(InternalKey(key, first + i, TypeDeletion), []))
  }

  /** WriteBatchInternal::InsertInto: each operation is one insert, numbered in turn. */
  method InsertInto(rep: Bytes, mem: seq<Entry>) returns (mem': seq<Entry>, status: Status)
    requires |rep| >= HEADER && Sequence(rep) + |ReadOps(rep[HEADER..]).0| <= MAX_SEQUENCE + 1
    ensures mem' == mem + Numbered(Sequence(rep), ReadOps(rep[HEADER..]).0)
    ensures status == OK <==> ReadOps(rep[HEADER..]).1 == OK && |ReadOps(rep[HEADER..]).0| == Count(rep)
  {
    hide ReadOps, Count;
    var ops;
    ops, status := Iterate(rep);
    mem' := AddAll(Sequence(rep), ops, mem);
  }

  method AddAll(first: nat, ops: seq<Op>, mem: seq<Entry>) returns (mem': seq<Entry>)
    requires first + |ops| <= MAX_SEQUENCE + 1
    ensures mem' == mem + Numbered(first, ops)
  {
    mem' := mem;
    var sequence := first;
    for i := 0 to |ops|
      invariant sequence == first + i
      invariant mem' == mem + Numbered(first, ops)[..i]
    {
      var entry := match ops[i]
        case PutOp(key, value) => Entry(InternalKey(key, sequence, TypeValue), value)
        case DeleteOp(key) => Entry(InternalKey(key, sequence, TypeDeletion), []);
      mem' := mem' + [entry];
      sequence := sequence + 1;
    }
  }

  class WriteBatch {
    var rep: Bytes

    ghost var first: nat
    ghost var ops: seq<Op>

    ghost predicate Valid()
      reads this
    {
      first < MAX64 && |ops| < MAX_COUNT && rep == Rep(first, ops)
    }

    constructor ()
      ensures Valid() && ops == []
    {
      rep := [0, 0, 0, 0, 0, 0, 0, 0, 0, 0, 0, 0];
      first, ops := 0, [];
      Zeros(8);
      Zeros(4);
    }

    method Clear()
      modifies this
      ensures Valid() && ops == []
    {
      rep := [0, 0, 0, 0, 0, 0, 0, 0, 0, 0, 0, 0];
      first, ops := 0, [];
      Zeros(8);
      Zeros(4);
    }

    static lemma {:induction false} Zeros(n: nat)
      ensures Fixed(0, n) == seq(n, _ => 0)
    {
      if n > 0 {
        Zeros(n - 1);
        assert seq<Byte>(n, _ => 0) == [0] + seq<Byte>(n - 1, _ => 0);
      }
    }

    method SetCount(n: nat)
      requires |rep| >= HEADER && n < MAX_COUNT
      modifies this`rep
      ensures rep == old(rep)[..8] + Fixed(n, 4) + old(rep)[HEADER..]
    {
      rep := rep[..8] + Fixed(n, 4) + rep[HEADER..];
    }

    method SetSequence(s: nat)
      requires Valid() && s < MAX64
      modifies this
      ensures Valid() && ops == old(ops) && first == s
    {
      hide Rep;
      SequenceSet(first, s, ops);
      rep := Fixed(s, 8) + rep[8..];
      first := s;
    }

    static lemma SequenceSet(first: nat, s: nat, ops: seq<Op>)
      ensures |Rep(first, ops)| >= HEADER && Fixed(s, 8) + Rep(first, ops)[8..] == Rep(s, ops)
    {
      hide Fixed, Body;
      EightBytes(first);
      EightBytes(s);
      assert Rep(first, ops)[8..] == Fixed(|ops|, 4) + Body(ops);
      Assoc(Fixed(s, 8), Fixed(|ops|, 4), Body(ops));
      RepLength(first, ops);
    }

    static lemma EightBytes(v: nat)
      ensures |Fixed(v, 8)| == 8
    {
    }

    static lemma RepLength(first: nat, ops: seq<Op>)
      ensures |Rep(first, ops)| >= HEADER
    {
    }

    method Put(key: Bytes, value: Bytes)
      requires Valid() && |ops| + 1 < MAX_COUNT
      modifies this
      ensures Valid() && first == old(first) && ops == old(ops) + [PutOp(key, value)]
    {
      hide LengthPrefixed, Rep, Fixed, Count;
      RepParts(first, ops);
      SetCount(Count(rep) + 1);
      ghost var counted := rep;
      rep := rep + [1];
      rep := rep + LengthPrefixed(key);
      rep := rep + LengthPrefixed(value);
      Appended(old(rep), first, ops, [PutOp(key, value)], rep, counted);
      ops := ops + [PutOp(key, value)];
    }

    method Delete(key: Bytes)
      requires Valid() && |ops| + 1 < MAX_COUNT
      modifies this
      ensures Valid() && first == old(first) && ops == old(ops) + [DeleteOp(key)]
    {
      hide LengthPrefixed, Rep, Fixed, Count;
      RepParts(first, ops);
      SetCount(Count(rep) + 1);
      ghost var counted := rep;
      rep := rep + [0];
      rep := rep + LengthPrefixed(key);
      Appended(old(rep), first, ops, [DeleteOp(key)], rep, counted);
      ops := ops + [DeleteOp(key)];
    }

    /** Adds the operations of another batch after this one's. */
    method Append(src: WriteBatch)
      requires Valid() && src.Valid() && |ops| + |src.ops| < MAX_COUNT
      modifies this
      ensures Valid() && first == old(first) && ops == old(ops) + old(src.ops)
    {
      hide LengthPrefixed, Rep, Fixed, Count, Body;
      RepParts(first, ops);
      RepParts(src.first, src.ops);
      var tail := src.rep[HEADER..];
      SetCount(Count(rep) + Count(src.rep));
      AppendedAll(old(rep), first, ops, old(src.ops));
      rep := rep + tail;
      ops := ops + old(src.ops);
    }

    static lemma AppendedAll(rep: Bytes, first: nat, a: seq<Op>, b: seq<Op>)
      requires rep == Rep(first, a) && |rep| >= HEADER
      ensures rep[..8] + Fixed(|a| + |b|, 4) + rep[HEADER..] + Body(b) == Rep(first, a + b)
    {
      hide Body, Fixed;
      BodyAppends(a, b);
      HeaderParts(Fixed(first, 8), Fixed(|a|, 4), Body(a));
      Assoc(Fixed(first, 8) + Fixed(|a| + |b|, 4), Body(a), Body(b));
    }

    static lemma HeaderParts(x: Bytes, y: Bytes, z: Bytes)
      requires |x| == 8 && |y| == 4
      ensures (x + y + z)[..8] == x && (x + y + z)[HEADER..] == z
    {
    }

    static lemma Appended(rep: Bytes, first: nat, a: seq<Op>, b: seq<Op>, rep': Bytes, counted: Bytes)
      requires rep == Rep(first, a) && |rep| >= HEADER && |b| == 1
      requires counted == rep[..8] + Fixed(|a| + 1, 4) + rep[HEADER..]
      requires rep' == match b[0]
                       case PutOp(key, value) => counted + [1] + LengthPrefixed(key) + LengthPrefixed(value)
                       case DeleteOp(key) => counted + [0] + LengthPrefixed(key)
      ensures rep' == Rep(first, a + b)
    {
      hide LengthPrefixed, Fixed, Rep;
      AppendedAll(rep, first, a, b);
      OneBody(b);
      match b[0]
      case PutOp(key, value) =>
        Assoc(counted, [1], LengthPrefixed(key));
        Assoc(counted, [1] + LengthPrefixed(key), LengthPrefixed(value));
      case DeleteOp(key) =>
        Assoc(counted, [0], LengthPrefixed(key));
    }

    static lemma OneBody(b: seq<Op>)
      requires |b| == 1
      ensures Body(b) == Coded(b[0])
    {
      hide Coded;
      assert Body(b[1..]) == [];
    }
  }

  /** A batch replayed into the memtable gives its operations, in order, and no error. */
  lemma BatchRoundTrip(first: nat, ops: seq<Op>)
    requires first < MAX64 && AllFit(ops)
    ensures Sequence(Rep(first, ops)) == first && Count(Rep(first, ops)) == |ops|
    ensures ReadOps(Rep(first, ops)[HEADER..]) == (ops, OK)
  {
    RepParts(first, ops);
    BodyRoundTrip(ops);
  }
}
