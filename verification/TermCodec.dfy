/**
 * The byte form of terms (docs/java/TermIO.java): what is written, what is read, and exactly
 * when reading gives back what was written.
 *
 * Bytes are 0..255.  The zigzag integers are assumed to be the usual base-128 varints, low
 * groups first, and a leaf is assumed to be written as its reader expects it.
 */
module TermCodec {
  datatype Op =
    | ATOM | NEG | INH | SIM | PROD | CONJ | SETi | SETe | IMPL
    | VAR_PATTERN | VAR_QUERY | VAR_INDEP | VAR_DEP | INT | BOOL | IMG | EQ | DIFF | DELTA

  newtype byte = b: int | 0 <= b < 256

  datatype Truth3 = Null | False | True

  datatype Term =
    | Atom(utf: seq<byte>)
    | Anom(id: byte)
    | Variable(kind: Op, id: byte)
    | Integer(n: int)
    | Boolean(truth: Truth3)
    | Image(ext: bool)
    | Neg(sub: Term)
    | Compound(op: Op, dt: int, subs: seq<Term>)

  const DTERNAL: int := -0x8000_0000
  const XTERNAL: int := 0x7fff_ffff

  const OP_COUNT: nat := 19
  const TEMPORAL_BIT_0: nat := 32
  const TEMPORAL_BIT_1: nat := 64
  /** The byte of a special term: all flag bits and no operator. */
  const SPECIAL_BYTE: byte := 255

  datatype Error = EndOfInput | NoSuchOp | InvalidAtom | InvalidBool | NegativeSize | Unmodelled

  datatype Parsed<T> = Ok(value: T, rest: seq<byte>) | Err(error: Error)

  /** An operator's id is its place in the enumeration. */
  function Id(op: Op): (id: nat)
    ensures id < OP_COUNT
  {
    match op
    case ATOM => 0 case NEG => 1 case INH => 2 case SIM => 3 case PROD => 4 case CONJ => 5
    case SETi => 6 case SETe => 7 case IMPL => 8 case VAR_PATTERN => 9 case VAR_QUERY => 10
    case VAR_INDEP => 11 case VAR_DEP => 12 case INT => 13 case BOOL => 14 case IMG => 15
    case EQ => 16 case DIFF => 17 case DELTA => 18
  }

  function OpOf(id: nat): (op: Op)
    requires id < OP_COUNT
    ensures Id(op) == id
  {
    match id
    case 0 => ATOM case 1 => NEG case 2 => INH case 3 => SIM case 4 => PROD case 5 => CONJ
    case 6 => SETi case 7 => SETe case 8 => IMPL case 9 => VAR_PATTERN case 10 => VAR_QUERY
    case 11 => VAR_INDEP case 12 => VAR_DEP case 13 => INT case 14 => BOOL case 15 => IMG
    case 16 => EQ case 17 => DIFF case _ => DELTA
  }

  predicate IsVariable(op: Op) {
    op in {VAR_PATTERN, VAR_QUERY, VAR_INDEP, VAR_DEP}
  }

  /** The operators that are read by the general case. */
  predicate IsCompound(op: Op) {
    !IsVariable(op) && op !in {ATOM, NEG, INT, BOOL, IMG}
  }

  predicate IsTemporal(op: Op) {
    op == CONJ || op == IMPL
  }

  predicate IsInt32(n: int) {
    -0x8000_0000 <= n <= 0x7fff_ffff
  }

  /** What the term builder leaves as it is. */
  predicate Canonical(t: Term) {
    match t
    case Atom(utf) => |utf| < 0x1_0000
    case Anom(_) => true
    case Variable(kind, _) => IsVariable(kind)
    case Integer(n) => IsInt32(n)
    case Boolean(_) => true
    case Image(_) => true
    case Neg(u) => !u.Neg? && Canonical(u)
    case Compound(op, dt, subs) =>
      && IsCompound(op) && IsInt32(dt) && (IsTemporal(op) ==> |subs| >= 2) && (!IsTemporal(op) ==> dt == DTERNAL)
      && forall u :: u in subs ==> Canonical(u)
  }

  /** No node is joined at the same time (`dt` 0), and no node has more subterms than a signed byte counts. */
  predicate Faithful(t: Term) {
    match t
    case Neg(u) => Faithful(u)
    case Compound(_, dt, subs) => dt != 0 && |subs| < 128 && forall u :: u in subs ==> Faithful(u)
    case _ => true
  }

  // ---- Integers -------------------------------------------------------------------------------

  function ZigZag(n: int): nat {
    if n >= 0 then 2 * n else -2 * n - 1
  }

  function UnZigZag(u: nat): int {
    if u % 2 == 0 then u / 2 else -(u / 2) - 1
  }

  /** Seven bits a byte, low ones first; the top bit says that more follow. */
  function WriteVarint(u: nat): seq<byte> {
    if u < 128 then [u as byte] else [(u % 128 + 128) as byte] + WriteVarint(u / 128)
  }

  function ReadVarint(s: seq<byte>): (r: Parsed<nat>)
    ensures r.Ok? ==> |r.rest| < |s|
  {
    if s == [] then Err(EndOfInput)
    else if s[0] < 128 then Ok(s[0] as nat, s[1..])
    else
      match ReadVarint(s[1..])
      case Ok(u, rest) => Ok((s[0] as int - 128) + 128 * u, rest)
      case Err(e) => Err(e)
  }

  function ReadZigZagInt(s: seq<byte>): (r: Parsed<int>)
    ensures r.Ok? ==> |r.rest| < |s|
  {
    match ReadVarint(s)
    case Ok(u, rest) => Ok(UnZigZag(u), rest)
    case Err(e) => Err(e)
  }

  // ---- Writing --------------------------------------------------------------------------------

  /** Sets a flag; the flags lie above the operator's bits. */
  function SetBit(b: nat, bit: nat): nat
    requires bit > 0
  {
    if b / bit % 2 == 1 then b else b + bit
  }

  function CompoundPrefix(op: Op, dt: int): seq<byte> {
    var id := Id(op);
    if dt == DTERNAL then [id as byte]
    else if dt == XTERNAL then [SetBit(id, TEMPORAL_BIT_0) as byte]
    else if dt == 0 then [SetBit(SetBit(id, TEMPORAL_BIT_0), TEMPORAL_BIT_1) as byte]
    else [SetBit(SetBit(id, TEMPORAL_BIT_0), TEMPORAL_BIT_1) as byte] + WriteVarint(ZigZag(dt))
  }

  function Encode(t: Term): (s: seq<byte>)
    requires Canonical(t)
    ensures |s| > 0
  {
    match t
    case Atom(utf) => [0] + [(|utf| / 256) as byte, (|utf| % 256) as byte] + utf
    case Anom(id) => [32, id]
    case Variable(kind, id) => [Id(kind) as byte, id]
    case Integer(n) => [Id(INT) as byte] + WriteVarint(ZigZag(n))
    case Boolean(v) => [Id(BOOL) as byte, match v case Null => 255 case False => 0 case True => 1]
    case Image(ext) => [Id(IMG) as byte, if ext then 47 else 92]
    case Neg(u) => [Id(NEG) as byte] + Encode(u)
    case Compound(op, dt, subs) => CompoundPrefix(op, dt) + [(|subs| % 256) as byte] + EncodeAll(subs)
  }

  function EncodeAll(ts: seq<Term>): seq<byte>
    requires forall u :: u in ts ==> Canonical(u)
  {
    if ts == [] then [] else Encode(ts[0]) + EncodeAll(ts[1..])
  }

  // ---- Reading --------------------------------------------------------------------------------

  function Negated(t: Term): Term {
    if t.Neg? then t.sub else Neg(t)
  }

  function Decode(s: seq<byte>): (r: Parsed<Term>)
    decreases |s|, 0
    ensures r.Ok? ==> |r.rest| < |s| && !(r.value.Neg? && r.value.sub.Neg?)
    ensures r.Ok? && r.value.Compound? ==> |r.value.subs| < 128
  {
    if s == [] then Err(EndOfInput)
    else if s[0] == SPECIAL_BYTE then Err(Unmodelled)
    else
      var b, rest := s[0] as nat, s[1..];
      if b % 32 >= OP_COUNT then Err(NoSuchOp)
      else
        match OpOf(b % 32)
        case VAR_DEP | VAR_INDEP | VAR_PATTERN | VAR_QUERY =>
          if rest == [] then Err(EndOfInput) else Ok(Variable(OpOf(b % 32), rest[0]), rest[1..])
        case IMG => if rest == [] then Err(EndOfInput) else Ok(Image(rest[0] == 47), rest[1..])
        case BOOL => DecodeBool(rest)
        case ATOM => DecodeAtom(b / 32, rest)
        case INT =>
          (match ReadZigZagInt(rest)
           case Ok(n, after) => Ok(Integer(n), after)
           case Err(e) => Err(e))
        case NEG => AsNegated(Decode(rest))
        case op => DecodeCompound(op, b / 32 % 4, rest)
  }

  /** A compound after its operator byte: `dt`, the number of subterms, the subterms. */
  function DecodeCompound(op: Op, flags: nat, s: seq<byte>): (r: Parsed<Term>)
    decreases |s|, 2
    ensures r.Ok? ==> |r.rest| <= |s| && r.value.Compound? && |r.value.subs| < 128
  {
    match DecodeDT(flags, s)
    case Err(e) => Err(e)
    case Ok(dt, after) =>
      if after == [] then Err(EndOfInput)
      else if after[0] >= 128 then Err(NegativeSize)
      else
        AsCompound(op, dt, DecodeMany(after[1..], after[0] as nat))
  }

  function DecodeMany(s: seq<byte>, n: nat): (r: Parsed<seq<Term>>)
    decreases |s|, 1, n
    ensures r.Ok? ==> |r.value| == n && |r.rest| <= |s|
  {
    if n == 0 then Ok([], s)
    else
      match Decode(s)
      case Err(e) => Err(e)
      case Ok(t, after) =>
        match DecodeMany(after, n - 1)
        case Ok(ts, end) => Ok([t] + ts, end)
        case Err(e) => Err(e)
  }

  function DecodeBool(s: seq<byte>): Parsed<Term> {
    if s == [] then Err(EndOfInput)
    else if s[0] == 255 then Ok(Boolean(Null), s[1..])
    else if s[0] == 0 then Ok(Boolean(False), s[1..])
    else if s[0] == 1 then Ok(Boolean(True), s[1..])
    else Err(InvalidBool)
  }

  /** The upper bits of an atom's byte select its encoding. */
  function DecodeAtom(encoding: nat, s: seq<byte>): (r: Parsed<Term>)
    ensures r.Ok? ==> |r.rest| <= |s| && (r.value.Atom? || r.value.Anom?)
  {
    if encoding == 0 then
      (if |s| < 2 then Err(EndOfInput)
       else
         var n := s[0] as nat * 256 + s[1] as nat;
         if |s| < 2 + n then Err(EndOfInput) else Ok(Atom(s[2..2 + n]), s[2 + n..]))
    else if encoding == 1 then (if s == [] then Err(EndOfInput) else Ok(Anom(s[0]), s[1..]))
    else if encoding == 2 then Err(Unmodelled)
    else Err(InvalidAtom)
  }

  /** The reader's view of the flags: 2 stands for 0 and 3 for an explicit number. */
  function DecodeDT(flags: nat, s: seq<byte>): (r: Parsed<int>)
    ensures r.Ok? ==> |r.rest| <= |s|
  {
    if flags == 0 then Ok(DTERNAL, s)
    else if flags == 1 then Ok(XTERNAL, s)
    else if flags == 2 then Ok(0, s)
    else ReadZigZagInt(s)
  }

  /** What some bytes are read as. */
  predicate Reads(s: seq<byte>, r: Parsed<Term>) {
    Decode(s) == r
  }

  predicate ReadsMany(s: seq<byte>, ts: seq<Term>, rest: seq<byte>) {
    DecodeMany(s, |ts|) == Ok(ts, rest)
  }

  /** The bytes are not read as this term, whatever they are read as. */
  predicate NotReadAs(s: seq<byte>, t: Term) {
    Decode(s).Ok? ==> Decode(s).value != t
  }

  predicate NotReadAsMany(s: seq<byte>, ts: seq<Term>) {
    DecodeMany(s, |ts|).Ok? ==> DecodeMany(s, |ts|).value != ts
  }

  function AsCompound(op: Op, dt: int, r: Parsed<seq<Term>>): Parsed<Term> {
    match r
    case Ok(subs, end) => Ok(Compound(op, dt, subs), end)
    case Err(e) => Err(e)
  }

  function AsNegated(r: Parsed<Term>): Parsed<Term> {
    match r
    case Ok(u, end) => Ok(Negated(u), end)
    case Err(e) => Err(e)
  }

  // ---- Integers come back -----------------------------------------------------------------------

  lemma ZigZagRoundTrip(n: int)
    ensures UnZigZag(ZigZag(n)) == n
  {
  }

  lemma {:induction false} VarintRoundTrip(u: nat, s: seq<byte>)
    ensures ReadVarint(WriteVarint(u) + s) == Ok(u, s)
  {
    if u < 128 {
      assert (WriteVarint(u) + s)[1..] == s;
    } else {
      VarintRoundTrip(u / 128, s);
      ContinuedVarint((u % 128 + 128) as byte, WriteVarint(u / 128) + s, u / 128, s);
      assert WriteVarint(u) + s == [(u % 128 + 128) as byte] + (WriteVarint(u / 128) + s);
    }
  }

  lemma ContinuedVarint(b: byte, p: seq<byte>, high: nat, rest: seq<byte>)
    requires b >= 128 && ReadVarint(p) == Ok(high, rest)
    ensures ReadVarint([b] + p) == Ok((b as int - 128) + 128 * high, rest)
  {
    assert ([b] + p)[1..] == p;
  }

  // ---- The operator byte --------------------------------------------------------------------------

  /** Setting flags never disturbs the operator, nor can it make the special byte. */
  lemma FlagsKeepOperator(op: Op)
    ensures var (b1, b3) := (SetBit(Id(op), TEMPORAL_BIT_0), SetBit(SetBit(Id(op), TEMPORAL_BIT_0), TEMPORAL_BIT_1));
            && b1 == Id(op) + 32 && b3 == Id(op) + 96
            && b1 % 32 == Id(op) == b3 % 32 && OpOf(Id(op)) == op
            && Id(op) / 32 % 4 == 0 && b1 / 32 % 4 == 1 && b3 / 32 % 4 == 3
            && b3 < SPECIAL_BYTE as int
  {
  }

  lemma PrefixIsRead(op: Op, dt: int, s: seq<byte>)
    requires IsInt32(dt) && dt != 0
    ensures var p := CompoundPrefix(op, dt) + s;
            && p != [] && p[0] != SPECIAL_BYTE && p[0] as nat % 32 == Id(op)
            && DecodeDT(p[0] as nat / 32 % 4, p[1..]) == Ok(dt, s)
  {
    FlagsKeepOperator(op);
    var p := CompoundPrefix(op, dt) + s;
    if dt == DTERNAL || dt == XTERNAL {
      assert p[1..] == s;
    } else {
      NumberIsRead(dt, s);
      assert p[1..] == WriteVarint(ZigZag(dt)) + s;
    }
  }

  lemma NumberIsRead(n: int, s: seq<byte>)
    ensures ReadZigZagInt(WriteVarint(ZigZag(n)) + s) == Ok(n, s)
  {
    VarintRoundTrip(ZigZag(n), s);
    ZigZagRoundTrip(n);
  }

  /** With `dt` 0 the reader takes the subterm count for the number that is not there. */
  lemma ZeroPrefixIsMisread(op: Op, n: byte, s: seq<byte>)
    requires 2 <= n < 128
    ensures var p := CompoundPrefix(op, 0) + ([n] + s);
            && p[0] != SPECIAL_BYTE && p[0] as nat % 32 == Id(op)
            && DecodeDT(p[0] as nat / 32 % 4, p[1..]) == Ok(UnZigZag(n as nat), s)
            && UnZigZag(n as nat) != 0
  {
    FlagsKeepOperator(op);
    var p := CompoundPrefix(op, 0) + ([n] + s);
    assert p[1..] == [n] + s && ([n] + s)[1..] == s;
  }

  /**
   * The flag codes, in numbers: none for DTERNAL, one for XTERNAL, and both for everything else; the
   * reader has a code of its own for 0, which is never written.
   */
  lemma FlagCodes(op: Op, dt: int, s: seq<byte>)
    ensures CompoundPrefix(op, -2147483648) == [Id(op) as byte]
    ensures CompoundPrefix(op, 2147483647) == [(Id(op) + 32) as byte]
    ensures CompoundPrefix(op, 0) == [(Id(op) + 96) as byte]
    ensures dt !in {-2147483648, 0, 2147483647} ==>
              CompoundPrefix(op, dt) == [(Id(op) + 96) as byte] + WriteVarint(if dt >= 0 then 2 * dt else -2 * dt - 1)
    ensures DecodeDT(0, s) == Ok(-2147483648, s) && DecodeDT(1, s) == Ok(2147483647, s) && DecodeDT(2, s) == Ok(0, s)
  {
    FlagsKeepOperator(op);
  }

  /** The operators' ids, in numbers. */
  lemma OpsInOrder(op: Op)
    ensures var ops := [ATOM, NEG, INH, SIM, PROD, CONJ, SETi, SETe, IMPL, VAR_PATTERN, VAR_QUERY, VAR_INDEP, VAR_DEP,
                        INT, BOOL, IMG, EQ, DIFF, DELTA];
            |ops| == 19 && ops[Id(op)] == op && forall id :: 0 <= id < 19 ==> OpOf(id) == ops[id]
  {
  }

  /** The leaves, byte by byte, as the reader takes them; and what it makes of wrong ones. */
  lemma LeafBytes(b: byte, s: seq<byte>)
    ensures Decode([14, b] + s) == (if b == 255 then Ok(Boolean(Null), s) else if b == 0 then Ok(Boolean(False), s)
                                    else if b == 1 then Ok(Boolean(True), s) else Err(InvalidBool))
    ensures Decode([15, b] + s) == Ok(Image(b == '/' as int as byte), s)
    ensures Decode([32, b] + s) == Ok(Anom(b), s)
    ensures Decode([96, b] + s) == Err(InvalidAtom)
    ensures 9 <= b <= 12 ==> Decode([b]) == Err(EndOfInput)
    ensures b % 32 >= 19 && b != 255 ==> Decode([b] + s) == Err(NoSuchOp)
  {
    TwoBytesThen(14, b, s);
    TwoBytesThen(15, b, s);
    TwoBytesThen(32, b, s);
    TwoBytesThen(96, b, s);
  }

  // ---- Terms come back --------------------------------------------------------------------------

  lemma AtomRoundTrip(utf: seq<byte>, s: seq<byte>)
    requires |utf| < 0x1_0000
    ensures Reads(Encode(Atom(utf)) + s, Ok(Atom(utf), s))
  {
    var length := [(|utf| / 256) as byte, (|utf| % 256) as byte];
    var p := Encode(Atom(utf)) + s;
    assert p[1..] == length + utf + s;
    assert p[1..][2..2 + |utf|] == utf && p[1..][2 + |utf|..] == s;
  }

  lemma IntegerRoundTrip(n: int, s: seq<byte>)
    requires IsInt32(n)
    ensures Reads(Encode(Integer(n)) + s, Ok(Integer(n), s))
  {
    var p := Encode(Integer(n)) + s;
    assert p[1..] == WriteVarint(ZigZag(n)) + s;
    NumberIsRead(n, s);
  }

  lemma VariableRoundTrip(kind: Op, id: byte, s: seq<byte>)
    requires IsVariable(kind)
    ensures Reads(Encode(Variable(kind, id)) + s, Ok(Variable(kind, id), s))
  {
    var p := Encode(Variable(kind, id)) + s;
    FlagsKeepOperator(kind);
    assert p[1..] == [id] + s && p[1..][1..] == s;
  }

  lemma AnomRoundTrip(id: byte, s: seq<byte>)
    ensures Reads(Encode(Anom(id)) + s, Ok(Anom(id), s))
  {
    TwoBytesThen(32, id, s);
  }

  lemma BooleanRoundTrip(v: Truth3, s: seq<byte>)
    ensures Reads(Encode(Boolean(v)) + s, Ok(Boolean(v), s))
  {
    TwoBytesThen(14, match v case Null => 255 case False => 0 case True => 1, s);
  }

  lemma ImageRoundTrip(ext: bool, s: seq<byte>)
    ensures Reads(Encode(Image(ext)) + s, Ok(Image(ext), s))
  {
    TwoBytesThen(15, if ext then 47 else 92, s);
  }

  lemma TwoBytesThen(b: byte, c: byte, s: seq<byte>)
    ensures var p := [b, c] + s; p[0] == b && |p| >= 2 && p[1..][0] == c && p[1..][1..] == s
  {
  }

  lemma LeafRoundTrip(t: Term, s: seq<byte>)
    requires Canonical(t) && !t.Neg? && !t.Compound?
    ensures Reads(Encode(t) + s, Ok(t, s))
  {
    match t
    case Atom(utf) => AtomRoundTrip(utf, s);
    case Integer(n) => IntegerRoundTrip(n, s);
    case Variable(kind, id) => VariableRoundTrip(kind, id, s);
    case Anom(id) => AnomRoundTrip(id, s);
    case Boolean(v) => BooleanRoundTrip(v, s);
    case Image(ext) => ImageRoundTrip(ext, s);
  }

  lemma NegIsRead(s: seq<byte>)
    ensures Reads([Id(NEG) as byte] + s, AsNegated(Decode(s)))
  {
    var p := [Id(NEG) as byte] + s;
    assert p[1..] == s;
    GoesToNeg(p, Decode(s));
  }

  lemma GoesToNeg(p: seq<byte>, r: Parsed<Term>)
    requires p != [] && p[0] == 1 && Decode(p[1..]) == r
    ensures Reads(p, AsNegated(r))
  {
    assert OpOf(1) == NEG;
  }

  /** A compound's operator byte sends the reader to the general case. */
  lemma GoesToCompound(op: Op, p: seq<byte>)
    requires IsCompound(op) && p != [] && p[0] != SPECIAL_BYTE && p[0] as nat % 32 == Id(op)
    ensures Decode(p) == DecodeCompound(op, p[0] as nat / 32 % 4, p[1..])
  {
    FlagsKeepOperator(op);
  }

  lemma BodyIsRead(op: Op, dt: int, flags: nat, n: nat, p: seq<byte>, s: seq<byte>)
    requires n < 128 && DecodeDT(flags, p) == Ok(dt, [n as byte] + s)
    ensures DecodeCompound(op, flags, p) == AsCompound(op, dt, DecodeMany(s, n))
  {
    assert ([n as byte] + s)[1..] == s;
  }

  lemma CompoundIsRead(op: Op, dt: int, n: nat, s: seq<byte>, p: seq<byte>)
    requires IsCompound(op) && IsInt32(dt) && dt != 0 && n < 128 && p == CompoundPrefix(op, dt) + ([n as byte] + s)
    ensures Reads(p, AsCompound(op, dt, DecodeMany(s, n)))
  {
    PrefixIsRead(op, dt, [n as byte] + s);
    GoesToCompound(op, p);
    BodyIsRead(op, dt, p[0] as nat / 32 % 4, n, p[1..], s);
  }

  lemma CompoundIsWritten(t: Term, s: seq<byte>)
    requires Canonical(t) && t.Compound? && |t.subs| < 128
    ensures IsCompound(t.op) && IsInt32(t.dt)
    ensures Encode(t) + s == CompoundPrefix(t.op, t.dt) + ([|t.subs| as byte] + (EncodeAll(t.subs) + s))
  {
  }

  lemma CompoundResult(t: Term, s: seq<byte>)
    requires Canonical(t) && t.Compound? && t.dt != 0 && |t.subs| < 128
    ensures Reads(Encode(t) + s, AsCompound(t.op, t.dt, DecodeMany(EncodeAll(t.subs) + s, |t.subs|)))
  {
    CompoundIsWritten(t, s);
    CompoundIsRead(t.op, t.dt, |t.subs|, EncodeAll(t.subs) + s, Encode(t) + s);
  }

  lemma NegResult(u: Term, s: seq<byte>)
    requires Canonical(Neg(u))
    ensures Reads(Encode(Neg(u)) + s, AsNegated(Decode(Encode(u) + s)))
  {
    NegIsRead(Encode(u) + s);
    assert Encode(Neg(u)) + s == [Id(NEG) as byte] + (Encode(u) + s);
  }

  /** Reading what was written for a faithful term gives the term back and leaves what follows. */
  lemma {:induction false} RoundTrip(t: Term, s: seq<byte>)
    requires Canonical(t) && Faithful(t)
    ensures Reads(Encode(t) + s, Ok(t, s))
    decreases t
  {
    match t
    case Neg(u) =>
      RoundTrip(u, s);
      NegResult(u, s);
    case Compound(op, dt, subs) =>
      RoundTripAll(subs, s);
      CompoundResult(t, s);
    case Atom(_) => LeafRoundTrip(t, s);
    case Anom(_) => LeafRoundTrip(t, s);
    case Variable(_, _) => LeafRoundTrip(t, s);
    case Integer(_) => LeafRoundTrip(t, s);
    case Boolean(_) => LeafRoundTrip(t, s);
    case Image(_) => LeafRoundTrip(t, s);
  }

  lemma FirstIsWritten(ts: seq<Term>, s: seq<byte>)
    requires ts != [] && forall u :: u in ts ==> Canonical(u)
    ensures EncodeAll(ts) + s == Encode(ts[0]) + (EncodeAll(ts[1..]) + s)
  {
  }

  lemma {:induction false} RoundTripAll(ts: seq<Term>, s: seq<byte>)
    requires forall u :: u in ts ==> Canonical(u) && Faithful(u)
    ensures ReadsMany(EncodeAll(ts) + s, ts, s)
    decreases ts
  {
    if ts == [] {
      assert EncodeAll(ts) + s == s;
    } else {
      var rest := EncodeAll(ts[1..]) + s;
      RoundTrip(ts[0], rest);
      RoundTripAll(ts[1..], s);
      FirstIsWritten(ts, s);
      ReadsCons(ts, Encode(ts[0]) + rest, rest, s);
    }
  }

  lemma ReadsCons(ts: seq<Term>, p: seq<byte>, rest: seq<byte>, s: seq<byte>)
    requires ts != [] && Reads(p, Ok(ts[0], rest)) && ReadsMany(rest, ts[1..], s)
    ensures ReadsMany(p, ts, s)
  {
    assert [ts[0]] + ts[1..] == ts;
  }

  /** A compound with `dt` 0 is read, if at all, with another number; a crowded one with fewer subterms. */
  lemma UnfaithfulNode(t: Term, s: seq<byte>)
    requires Canonical(t) && t.Compound? && (t.dt == 0 || |t.subs| >= 128)
    ensures NotReadAs(Encode(t) + s, t)
  {
    if |t.subs| < 128 {
      var tail := EncodeAll(t.subs) + s;
      CompoundIsWritten(t, s);
      ZeroPrefixIsMisread(t.op, |t.subs| as byte, tail);
      MisreadIsOther(t, CompoundPrefix(t.op, 0) + ([|t.subs| as byte] + tail));
    }
  }

  lemma MisreadIsOther(t: Term, p: seq<byte>)
    requires t.Compound? && IsCompound(t.op) && t.dt == 0
    requires p != [] && p[0] != SPECIAL_BYTE && p[0] as nat % 32 == Id(t.op)
    requires var r := DecodeDT(p[0] as nat / 32 % 4, p[1..]); r.Ok? && r.value != 0
    ensures NotReadAs(p, t)
  {
    GoesToCompound(t.op, p);
  }

  /** Whatever follows, a term that is not faithful is never read back as itself. */
  lemma {:induction false} Distorted(t: Term, s: seq<byte>)
    requires Canonical(t) && !Faithful(t)
    ensures NotReadAs(Encode(t) + s, t)
    decreases t
  {
    match t
    case Neg(u) =>
      Distorted(u, s);
      NegResult(u, s);
    case Compound(op, dt, subs) =>
      if dt == 0 || |subs| >= 128 {
        UnfaithfulNode(t, s);
      } else {
        DistortedAll(subs, s);
        CompoundResult(t, s);
      }
  }

  lemma {:induction false} DistortedAll(ts: seq<Term>, s: seq<byte>)
    requires (forall u :: u in ts ==> Canonical(u)) && exists u :: u in ts && !Faithful(u)
    ensures NotReadAsMany(EncodeAll(ts) + s, ts)
    decreases ts
  {
    var rest := EncodeAll(ts[1..]) + s;
    FirstIsWritten(ts, s);
    if Faithful(ts[0]) {
      RoundTrip(ts[0], rest);
      UnfaithfulIsLater(ts);
      DistortedAll(ts[1..], s);
      OthersLater(ts, Encode(ts[0]) + rest, rest);
    } else {
      Distorted(ts[0], rest);
      OtherFirst(ts, Encode(ts[0]) + rest);
    }
  }

  lemma UnfaithfulIsLater(ts: seq<Term>)
    requires (exists u :: u in ts && !Faithful(u)) && Faithful(ts[0])
    ensures exists u :: u in ts[1..] && !Faithful(u)
  {
    var u :| u in ts && !Faithful(u);
    assert u in ts[1..];
  }

  lemma OtherFirst(ts: seq<Term>, p: seq<byte>)
    requires ts != [] && NotReadAs(p, ts[0])
    ensures NotReadAsMany(p, ts)
  {
  }

  lemma OthersLater(ts: seq<Term>, p: seq<byte>, rest: seq<byte>)
    requires ts != [] && Reads(p, Ok(ts[0], rest)) && NotReadAsMany(rest, ts[1..])
    ensures NotReadAsMany(p, ts)
  {
  }

  /**
   * The codec's law, for every canonical term: it is read back from what was written, with
   * everything behind it untouched, exactly when no node has `dt` 0 or 128 subterms and more.
   */
  lemma ReadsBackIff(t: Term, s: seq<byte>)
    requires Canonical(t)
    ensures Decode(Encode(t) + s) == Ok(t, s) <==> Faithful(t)
  {
    if Faithful(t) {
      RoundTrip(t, s);
    } else {
      Distorted(t, s);
    }
  }

  /** No faithful term's bytes begin another's: a stream of terms is read in one way only. */
  lemma Unambiguous(t: Term, u: Term, s: seq<byte>, r: seq<byte>)
    requires Canonical(t) && Faithful(t) && Canonical(u) && Faithful(u)
    requires Encode(t) + s == Encode(u) + r
    ensures t == u && s == r
  {
    RoundTrip(t, s);
    RoundTrip(u, r);
  }

  /** The conjunction of two things at the same time cannot be read at all. */
  lemma ParallelConjunctionIsLost()
    ensures var t := Compound(CONJ, 0, [Variable(VAR_DEP, 1), Variable(VAR_DEP, 2)]);
            Canonical(t) && Reads(Encode(t), Err(EndOfInput))
  {
    ParallelIsWritten();
    OutOfStep([101, 2, 12, 1, 12, 2]);
  }

  lemma ParallelIsWritten()
    ensures var t := Compound(CONJ, 0, [Variable(VAR_DEP, 1), Variable(VAR_DEP, 2)]);
            Canonical(t) && Encode(t) == [101, 2, 12, 1, 12, 2]
  {
    PairIsWritten(Variable(VAR_DEP, 1), Variable(VAR_DEP, 2));
  }

  lemma TwoIsOne(s: seq<byte>)
    ensures DecodeDT(3, [2] + s) == Ok(1, s)
  {
    assert ([2] + s)[1..] == s;
  }

  lemma OutOfStep(p: seq<byte>)
    requires p == [101, 2, 12, 1, 12, 2]
    ensures Reads(p, Err(EndOfInput))
  {
    ThirdIsMissing();
    assert p[1..] == [2] + ([12] + [1, 12, 2]);
    MisreadAs(p, 12, [1, 12, 2]);
  }

  /** A conjunction's bytes with `dt` 0 and two subterms: the next byte is taken for the count. */
  lemma MisreadAs(p: seq<byte>, n: byte, tail: seq<byte>)
    requires p != [] && p[0] == 101 && n < 128 && p[1..] == [2] + ([n] + tail)
    ensures Reads(p, AsCompound(CONJ, 1, DecodeMany(tail, n as nat)))
  {
    TwoIsOne([n] + tail);
    GoesToCompound(CONJ, p);
    BodyIsRead(CONJ, 1, 3, n as nat, p[1..], tail);
  }

  /** The bytes of the two variables, out of step: one negated variable, and then nothing. */
  lemma ThirdIsMissing()
    ensures DecodeMany([1, 12, 2], 12) == Err(EndOfInput)
  {
    NegIsRead([12, 2]);
    VariableRoundTrip(VAR_DEP, 2, []);
    assert Encode(Variable(VAR_DEP, 2)) + [] == [12, 2] && [Id(NEG) as byte] + [12, 2] == [1, 12, 2];
    EndsEarly([1, 12, 2], 12);
  }

  lemma PairIsWritten(x: Term, y: Term)
    requires Canonical(x) && Canonical(y)
    ensures EncodeAll([x, y]) == Encode(x) + Encode(y)
  {
    assert [x, y][1..] == [y] && [y][1..] == [];
    assert EncodeAll([y]) == Encode(y) + EncodeAll([]);
  }

  /** One term is there, but more are asked for. */
  lemma EndsEarly(s: seq<byte>, n: nat)
    requires n >= 2 && Decode(s).Ok? && Decode(s).rest == []
    ensures DecodeMany(s, n) == Err(EndOfInput)
  {
    assert DecodeMany([], n - 1) == Err(EndOfInput);
  }
}
