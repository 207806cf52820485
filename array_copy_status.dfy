/**
 * The return-status protocol of the generic arraycopy stub.
 *
 * The stub never throws: it returns 0 when the whole copy succeeded, and
 * otherwise the number of elements it copied before the first failing store,
 * xor'd with -1. The status and the count are Java `int`s, modelled as 32-bit
 * words; `IsNegative` and `ToInt32` give their two's-complement reading.
 */
module ArrayCopyStatus {

  /** A Java `int` as the machine sees it: a 32-bit word. */
  type Int32 = bv32

  /** Java's `-1`: every bit set. */
  const MINUS_ONE: Int32 := 0xFFFF_FFFF

  /** The sign bit, i.e. Java's `Integer.MIN_VALUE`. */
  const SIGN_BIT: Int32 := 0x8000_0000

  /** An int is negative exactly when its sign bit is set. */
  predicate IsNegative(w: Int32) {
    w >= SIGN_BIT
  }

  /** The two's-complement value of a 32-bit word. */
  function ToInt32(w: Int32): (i: int)
    ensures i < 0 <==> IsNegative(w)
  {
    if w < SIGN_BIT then w as int else w as int - 0x1_0000_0000
  }

  const INT_MIN: int := -0x8000_0000
  const INT_MAX: int := 0x7FFF_FFFF

  /** The reading of a word lies in the range of a Java `int`. */
  lemma ToInt32Range(w: Int32)
    ensures INT_MIN <= ToInt32(w) <= INT_MAX
  {
  }

  /** Java's `x ^ -1`, which in 32-bit arithmetic is `-x - 1`. */
  function Complement(w: Int32): (r: Int32)
    ensures r == 0 - w - 1
  {
    w ^ MINUS_ONE
  }

  /** The complement holds exactly the bits the word lacks. */
  lemma ComplementFlipsEveryBit(w: Int32)
    ensures Complement(w) & w == 0 && Complement(w) | w == MINUS_ONE
  {
  }

  /** The complement of a non-negative int is negative, and the other way round. */
  lemma ComplementFlipsSign(w: Int32)
    ensures IsNegative(Complement(w)) <==> !IsNegative(w)
  {
  }

  /** Xor with -1 undoes itself, which is what lets the caller recover the count. */
  lemma ComplementInvolution(w: Int32)
    ensures Complement(Complement(w)) == w
  {
  }

  /** What a status word tells the node's user about the copy. */
  datatype CopyOutcome =
    | Succeeded
    | PartiallyCopied(copied: Int32)

  /**
   * The outcomes a status word can express: success, or any count except -1,
   * whose complement is 0, the success status.
   */
  predicate Representable(o: CopyOutcome) {
    o.Succeeded? || o.copied != MINUS_ONE
  }

  /**
   * The outcomes the stub itself reports: success, or a count of copied
   * elements, which as a Java int is never negative.
   */
  predicate StubOutcome(o: CopyOutcome) {
    o.Succeeded? || !IsNegative(o.copied)
  }

  /** The status the stub returns for an outcome. */
  function Encode(o: CopyOutcome): (s: Int32)
    requires Representable(o)
    ensures s == 0 <==> o.Succeeded?
  {
    match o
    case Succeeded => 0
    case PartiallyCopied(n) => Complement(n)
  }

  /** What a user of the node reads from a status: 0 is success, anything else a count. */
  function Decode(s: Int32): (o: CopyOutcome)
    ensures Representable(o)
    ensures o.Succeeded? <==> s == 0
  {
    if s == 0 then Succeeded else PartiallyCopied(Complement(s))
  }

  /** Every expressible outcome survives the trip through the status word. */
  lemma DecodeEncode(o: CopyOutcome)
    requires Representable(o)
    ensures Decode(Encode(o)) == o
  {
    if o.PartiallyCopied? {
      ComplementInvolution(o.copied);
    }
  }

  /** Every status word is the encoding of what it decodes to. */
  lemma EncodeDecode(s: Int32)
    ensures Encode(Decode(s)) == s
  {
    if s != 0 {
      ComplementInvolution(s);
    }
  }

  /** Two statuses that decode alike are the same word: each status has exactly one meaning. */
  lemma DecodeInjective(s: Int32, t: Int32)
    ensures Decode(s) == Decode(t) ==> s == t
  {
    EncodeDecode(s);
    EncodeDecode(t);
  }

  /** A status of -1 reports a failure before the first element was copied. */
  lemma MinusOneMeansNothingCopied()
    ensures Decode(MINUS_ONE) == PartiallyCopied(0)
  {
  }

  /**
   * A count the stub reports becomes a negative status, so it is never 0 and
   * never read as success.
   */
  lemma StubFailureIsNegative(n: Int32)
    requires !IsNegative(n)
    ensures IsNegative(Encode(PartiallyCopied(n)))
    ensures Encode(PartiallyCopied(n)) != Encode(Succeeded)
  {
    ComplementFlipsSign(n);
  }

  /** A status carries an outcome the stub can report exactly when it is 0 or negative. */
  lemma StubStatusIffNonPositive(s: Int32)
    ensures StubOutcome(Decode(s)) <==> (s == 0 || IsNegative(s))
  {
    ComplementFlipsSign(s);
  }
}
