/** The term reader and writer (docs/java/TermIO.java) as they run, over a byte source and a byte sink. */
module TermIO {
  import opened TermCodec

  class ByteSink {
    var bytes: seq<byte>

    constructor ()
      ensures bytes == []
    {
      bytes := [];
    }

    method WriteByte(b: byte)
      modifies this
      ensures bytes == old(bytes) + [b]
    {
      bytes := bytes + [b];
    }

    method WriteBytes(s: seq<byte>)
      modifies this
      ensures bytes == old(bytes) + s
    {
      bytes := bytes + s;
    }
  }

  class ByteSource {
    var rest: seq<byte>

    constructor (s: seq<byte>)
      ensures rest == s
    {
      rest := s;
    }

    method ReadByte() returns (b: byte)
      requires rest != []
      modifies this
      ensures [b] + rest == old(rest)
    {
      b, rest := rest[0], rest[1..];
    }
  }

  datatype Outcome<T> = Done(value: T) | Failed(error: Error)

  /** A reader's outcome and what it left are what the specification says. */
  predicate Agrees<T(==)>(spec: Parsed<T>, got: Outcome<T>, left: seq<byte>) {
    match spec
    case Ok(t, rest) => got == Done(t) && left == rest
    case Err(e) => got == Failed(e)
  }

  // ---- Writing --------------------------------------------------------------------------------

  /** The operator byte with its flags, and an explicit number where the flags ask for one. */
  method WriteCompoundPrefix(op: Op, dt: int, out: ByteSink)
    modifies out
    ensures out.bytes == old(out.bytes) + CompoundPrefix(op, dt)
  {
    var opByte: nat := Id(op);
    FlagsKeepOperator(op);
    var dtSpecial := false;
    if dt != DTERNAL {
      if dt == XTERNAL {
        opByte := SetBit(opByte, TEMPORAL_BIT_0);
      } else if dt == 0 {
        opByte := SetBit(SetBit(opByte, TEMPORAL_BIT_0), TEMPORAL_BIT_1);
      } else {
        opByte := SetBit(SetBit(opByte, TEMPORAL_BIT_0), TEMPORAL_BIT_1);
        dtSpecial := true;
      }
    }
    out.WriteByte(opByte as byte);
    if dtSpecial {
      out.WriteBytes(WriteVarint(ZigZag(dt)));
    }
  }

  method WriteSubterms(out: ByteSink, subs: seq<Term>)
    requires forall u :: u in subs ==> Canonical(u)
    modifies out
    decreases subs
    ensures out.bytes == old(out.bytes) + [(|subs| % 256) as byte] + EncodeAll(subs)
  {
    out.WriteByte((|subs| % 256) as byte);
    ghost var head := out.bytes;
    for i := 0 to |subs|
      invariant out.bytes + EncodeAll(subs[i..]) == head + EncodeAll(subs)
    {
      ghost var before := out.bytes;
      Write(subs[i], out);
      assert subs[i..][1..] == subs[i + 1..];
      assert before + EncodeAll(subs[i..]) == before + Encode(subs[i]) + EncodeAll(subs[i + 1..]);
    }
    assert out.bytes + [] == out.bytes;
  }

  method Write(t: Term, out: ByteSink)
    requires Canonical(t)
    modifies out
    decreases t
    ensures out.bytes == old(out.bytes) + Encode(t)
  {
    match t
    case Neg(u) =>
      ghost var before := out.bytes;
      out.WriteByte(Id(NEG) as byte);
      Write(u, out);
      assert out.bytes == before + ([Id(NEG) as byte] + Encode(u));
    case Compound(op, dt, subs) =>
      WriteCompoundPrefix(op, dt, out);
      WriteSubterms(out, subs);
    case _ => out.WriteBytes(Encode(t));
  }

  // ---- Reading --------------------------------------------------------------------------------

  method ReadDT(flags: nat, input: ByteSource) returns (r: Outcome<int>)
    modifies input
    ensures Agrees(DecodeDT(flags, old(input.rest)), r, input.rest)
    ensures |input.rest| <= |old(input.rest)|
  {
    if flags == 0 {
      return Done(DTERNAL);
    } else if flags == 1 {
      return Done(XTERNAL);
    } else if flags == 2 {
      return Done(0);
    }
    r := Take(ReadZigZagInt(input.rest), input);
  }

  /** Adopts what a self-contained decoder read. */
  method Take<T>(parsed: Parsed<T>, input: ByteSource) returns (r: Outcome<T>)
    modifies input
    ensures match parsed
            case Ok(t, rest) => r == Done(t) && input.rest == rest
            case Err(e) => r == Failed(e) && input.rest == old(input.rest)
  {
    match parsed
    case Ok(t, rest) =>
      input.rest := rest;
      r := Done(t);
    case Err(e) => r := Failed(e);
  }

  method ReadBool(input: ByteSource) returns (r: Outcome<Term>)
    modifies input
    ensures Agrees(DecodeBool(old(input.rest)), r, input.rest)
    ensures |input.rest| <= |old(input.rest)|
  {
    if input.rest == [] {
      return Failed(EndOfInput);
    }
    ghost var s := input.rest;
    var b := input.ReadByte();
    assert input.rest == s[1..];
    match b as int
    case 255 => r := Done(Boolean(Null));
    case 0 => r := Done(Boolean(False));
    case 1 => r := Done(Boolean(True));
    case _ => r := Failed(InvalidBool);
  }

  method ReadAtom(encoding: nat, input: ByteSource) returns (r: Outcome<Term>)
    modifies input
    ensures Agrees(DecodeAtom(encoding, old(input.rest)), r, input.rest)
    ensures |input.rest| <= |old(input.rest)|
  {
    match encoding
    case 0 => r := Take(DecodeAtom(0, input.rest), input);
    case 1 =>
      if input.rest == [] {
        return Failed(EndOfInput);
      }
      ghost var s := input.rest;
      var id := input.ReadByte();
      assert input.rest == s[1..];
      r := Done(Anom(id));
    case 2 => r := Failed(Unmodelled);
    case _ => r := Failed(InvalidAtom);
  }

  /** Reads one term; what comes out and what is left are those of `Decode`. */
  method Read(input: ByteSource) returns (r: Outcome<Term>)
    modifies input
    decreases |input.rest|, 0
    ensures Agrees(Decode(old(input.rest)), r, input.rest)
    ensures |input.rest| <= |old(input.rest)|
  {
    if input.rest == [] {
      return Failed(EndOfInput);
    }
    ghost var s := input.rest;
    var b := input.ReadByte();
    assert input.rest == s[1..];
    if b == SPECIAL_BYTE {
      return Failed(Unmodelled);
    }
    if b as nat % 32 >= OP_COUNT {
      return Failed(NoSuchOp);
    }
    match OpOf(b as nat % 32) {
      case VAR_DEP | VAR_INDEP | VAR_PATTERN | VAR_QUERY =>
        if input.rest == [] {
          return Failed(EndOfInput);
        }
        var id := input.ReadByte();
        r := Done(Variable(OpOf(b as nat % 32), id));
      case IMG =>
        if input.rest == [] {
          return Failed(EndOfInput);
        }
        var side := input.ReadByte();
        r := Done(Image(side == 47));
      case BOOL => r := ReadBool(input);
      case ATOM => r := ReadAtom(b as nat / 32, input);
      case INT =>
        var n := Take(ReadZigZagInt(input.rest), input);
        r := if n.Done? then Done(Integer(n.value)) else Failed(n.error);
      case NEG =>
        var u := Read(input);
        r := if u.Done? then Done(Negated(u.value)) else u;
      case op => r := ReadCompound(op, b as nat / 32 % 4, input);
    }
  }

  method ReadCompound(op: Op, flags: nat, input: ByteSource) returns (r: Outcome<Term>)
    modifies input
    decreases |input.rest|, 2
    ensures Agrees(DecodeCompound(op, flags, old(input.rest)), r, input.rest)
    ensures |input.rest| <= |old(input.rest)|
  {
    var dt := ReadDT(flags, input);
    if dt.Failed? {
      return Failed(dt.error);
    }
    if input.rest == [] {
      return Failed(EndOfInput);
    }
    ghost var after := input.rest;
    var n := input.ReadByte();
    assert input.rest == after[1..];
    if n >= 128 {
      return Failed(NegativeSize);
    }
    var subs := ReadSubterms(n as nat, input);
    r := if subs.Done? then Done(Compound(op, dt.value, subs.value)) else Failed(subs.error);
  }

  /** The terms of a sequence that come before what is still to be read. */
  function Before(ts: seq<Term>, r: Parsed<seq<Term>>): Parsed<seq<Term>> {
    match r
    case Ok(us, rest) => Ok(ts + us, rest)
    case Err(e) => Err(e)
  }

  method ReadSubterms(n: nat, input: ByteSource) returns (r: Outcome<seq<Term>>)
    modifies input
    decreases |input.rest|, 1
    ensures Agrees(DecodeMany(old(input.rest), n), r, input.rest)
    ensures |input.rest| <= |old(input.rest)|
  {
    ghost var s := input.rest;
    var subs: seq<Term> := [];
    NoneBefore(DecodeMany(s, n));
    for i := 0 to n
      invariant |input.rest| <= |s| && DecodeMany(s, n) == Before(subs, DecodeMany(input.rest, n - i))
    {
      ghost var here := input.rest;
      var t := Read(input);
      if t.Failed? {
        return Failed(t.error);
      }
      OneMore(subs, t.value, here, input.rest, n - i);
      subs := subs + [t.value];
    }
    assert subs + [] == subs;
    r := Done(subs);
  }

  lemma NoneBefore(r: Parsed<seq<Term>>)
    ensures Before([], r) == r
  {
    assert r.Ok? ==> [] + r.value == r.value;
  }

  lemma OneMore(ts: seq<Term>, t: Term, s: seq<byte>, rest: seq<byte>, n: nat)
    requires n > 0 && Decode(s) == Ok(t, rest)
    ensures Before(ts, DecodeMany(s, n)) == Before(ts + [t], DecodeMany(rest, n - 1))
  {
    match DecodeMany(rest, n - 1)
    case Ok(us, _) => assert ts + ([t] + us) == ts + [t] + us;
    case Err(_) =>
  }

  /** What is written for a faithful term is read back as that term, with what follows still to come. */
  method WriteThenRead(t: Term, following: seq<byte>) returns (r: Outcome<Term>, left: seq<byte>)
    requires Canonical(t)
    ensures r == Done(t) && left == following <==> Faithful(t)
  {
    var out := new ByteSink();
    Write(t, out);
    out.WriteBytes(following);
    assert out.bytes == Encode(t) + following;
    var input := new ByteSource(out.bytes);
    ReadsBackIff(t, following);
    r := Read(input);
    left := input.rest;
  }
}
