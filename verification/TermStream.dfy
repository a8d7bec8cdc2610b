/**
 * Reading is local: what the bytes so far say is not changed by what comes after them.  So a term
 * that is cut short is never taken for another one, nor for a malformed one.
 */
module TermStream {
  import opened TermCodec

  /** `later` is what `r` becomes when more bytes follow: the same, unless the bytes had run out. */
  predicate Extends<T(==)>(r: Parsed<T>, s: seq<byte>, later: Parsed<T>) {
    match r
    case Ok(value, rest) => later == Ok(value, rest + s)
    case Err(e) => e == EndOfInput || later == r
  }

  /** Which compounds the term builder leaves as they are, in numbers: only two operators carry a `dt`. */
  lemma CanonicalIff(op: Op, dt: int, subs: seq<Term>)
    requires forall u :: u in subs ==> Canonical(u)
    ensures Canonical(Compound(op, dt, subs)) <==>
              match op
              case CONJ | IMPL => |subs| > 1 && -2147483648 <= dt <= 2147483647
              case INH | SIM | PROD | SETi | SETe | EQ | DIFF | DELTA => dt == -2147483648
              case _ => false
    ensures Canonical(Integer(dt)) <==> -2147483648 <= dt <= 2147483647
  {
    CompoundOps(op);
  }

  lemma CompoundOps(op: Op)
    ensures match op
            case CONJ | IMPL => IsTemporal(op) && IsCompound(op)
            case INH | SIM | PROD | SETi | SETe | EQ | DIFF | DELTA => !IsTemporal(op) && IsCompound(op)
            case _ => !IsCompound(op)
  {
  }

  lemma {:induction false} VarintIsLocal(p: seq<byte>, s: seq<byte>)
    ensures Extends(ReadVarint(p), s, ReadVarint(p + s))
  {
    if p != [] {
      assert (p + s)[1..] == p[1..] + s;
      if p[0] >= 128 {
        VarintIsLocal(p[1..], s);
      }
    }
  }

  lemma NumberIsLocal(p: seq<byte>, s: seq<byte>)
    ensures Extends(ReadZigZagInt(p), s, ReadZigZagInt(p + s))
  {
    VarintIsLocal(p, s);
  }

  lemma DTIsLocal(flags: nat, p: seq<byte>, s: seq<byte>)
    ensures Extends(DecodeDT(flags, p), s, DecodeDT(flags, p + s))
  {
    NumberIsLocal(p, s);
  }

  lemma AtomIsLocal(encoding: nat, p: seq<byte>, s: seq<byte>)
    ensures Extends(DecodeAtom(encoding, p), s, DecodeAtom(encoding, p + s))
  {
    if p != [] {
      assert (p + s)[1..] == p[1..] + s;
    }
    if encoding == 0 && |p| >= 2 {
      var n := p[0] as nat * 256 + p[1] as nat;
      if |p| >= 2 + n {
        assert (p + s)[2..2 + n] == p[2..2 + n] && (p + s)[2 + n..] == p[2 + n..] + s;
      }
    }
  }

  /** More bytes never change what was read, and never mend an error but that of too few. */
  lemma {:induction false} ReadingIsLocal(p: seq<byte>, s: seq<byte>)
    ensures Extends(Decode(p), s, Decode(p + s))
    decreases |p|, 0
  {
    if p != [] && p[0] != SPECIAL_BYTE && p[0] as nat % 32 < OP_COUNT {
      var (b, rest) := (p[0] as nat, p[1..]);
      assert (p + s)[0] == p[0] && (p + s)[1..] == rest + s;
      assert rest != [] ==> (rest + s)[1..] == rest[1..] + s;
      match OpOf(b % 32)
      case VAR_DEP | VAR_INDEP | VAR_PATTERN | VAR_QUERY =>
      case IMG =>
      case BOOL =>
      case ATOM => AtomIsLocal(b / 32, rest, s);
      case INT => NumberIsLocal(rest, s);
      case NEG => ReadingIsLocal(rest, s);
      case op => CompoundIsLocal(op, b / 32 % 4, rest, s);
    }
  }

  lemma {:induction false} CompoundIsLocal(op: Op, flags: nat, p: seq<byte>, s: seq<byte>)
    ensures Extends(DecodeCompound(op, flags, p), s, DecodeCompound(op, flags, p + s))
    decreases |p|, 2
  {
    DTIsLocal(flags, p, s);
    var r := DecodeDT(flags, p);
    if r.Ok? && r.rest != [] && r.rest[0] < 128 {
      assert (r.rest + s)[1..] == r.rest[1..] + s;
      ManyIsLocal(r.rest[1..], r.rest[0] as nat, s);
    }
  }

  lemma {:induction false} ManyIsLocal(p: seq<byte>, n: nat, s: seq<byte>)
    ensures Extends(DecodeMany(p, n), s, DecodeMany(p + s, n))
    decreases |p|, 1, n
  {
    if n > 0 {
      ReadingIsLocal(p, s);
      if Decode(p).Ok? {
        ManyIsLocal(Decode(p).rest, n - 1, s);
      }
    }
  }

  /** What was written for a faithful term, cut anywhere, reads as nothing but an input that ended. */
  lemma CutShort(t: Term, k: nat)
    requires Canonical(t) && Faithful(t) && k < |Encode(t)|
    ensures Decode(Encode(t)[..k]) == Err(EndOfInput)
  {
    var (p, s) := (Encode(t)[..k], Encode(t)[k..]);
    assert p + s == Encode(t) == Encode(t) + [];
    ReadingIsLocal(p, s);
    RoundTrip(t, []);
  }

  /** Two negation bytes cancel, in front of anything. */
  lemma TwoNegationsCancel(s: seq<byte>)
    ensures Decode([1, 1] + s) == Decode(s)
  {
    assert [1, 1] + s == [1] + ([1] + s);
    NegIsRead([1] + s);
    NegIsRead(s);
  }

  /** A compound without flags: a count below 128 and that many terms, or a negative count, which is refused. */
  lemma CountIsSigned(op: Op, n: byte, s: seq<byte>)
    requires IsCompound(op)
    ensures var r := Decode([Id(op) as byte, n] + s);
            && (n >= 128 ==> r == Err(NegativeSize))
            && (n < 128 ==>
                  match DecodeMany(s, n as nat)
                  case Ok(subs, rest) => r == Ok(Compound(op, DTERNAL, subs), rest)
                  case Err(e) => r == Err(e))
  {
    FlagsKeepOperator(op);
    var p := [Id(op) as byte, n] + s;
    assert p[1..] == [n] + s && ([n] + s)[1..] == s;
    GoesToCompound(op, p);
  }
}
