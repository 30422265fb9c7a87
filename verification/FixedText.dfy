/** Text held in a zero-padded buffer of fixed size, and the order its derived comparison gives. */
module FixedText {
  import opened Utf8

  datatype Ordering = Less | Equal | Greater

  function CompareNumbers(a: int, b: int): Ordering {
    if a < b then Less else if a == b then Equal else Greater
  }

  /** Lexicographic comparison of octets, the derived order of an array. */
  function CompareBytes(a: Bytes, b: Bytes): Ordering {
    if a == [] then if b == [] then Equal else Less
    else if b == [] then Greater
    else if a[0] != b[0] then CompareNumbers(a[0], b[0])
    else CompareBytes(a[1..], b[1..])
  }

  /** A length and a buffer, as `InlineId` and `StaticSafeMessage` store them. */
  datatype Buffer = Buffer(len: nat, bytes: Bytes)

  ghost predicate Holds(buffer: Buffer, source: Bytes, capacity: nat) {
    && buffer.len == |source| <= capacity == |buffer.bytes|
    && buffer.bytes[..|source|] == source
    && forall i | |source| <= i < capacity :: buffer.bytes[i] == 0
  }

  /** The derived order of the two fields, in declaration order. */
  function Compare(a: Buffer, b: Buffer): Ordering {
    if a.len != b.len then CompareNumbers(a.len, b.len) else CompareBytes(a.bytes, b.bytes)
  }

  /** Shorter texts first, texts of one length in lexicographic order. */
  function ShortLex(a: Bytes, b: Bytes): Ordering {
    if |a| != |b| then CompareNumbers(|a|, |b|) else CompareBytes(a, b)
  }

  lemma {:induction false} CompareEqualIffSame(a: Bytes, b: Bytes)
    ensures CompareBytes(a, b) == Equal <==> a == b
  {
    if a != [] && b != [] && a[0] == b[0] {
      CompareEqualIffSame(a[1..], b[1..]);
      assert a == [a[0]] + a[1..] && b == [b[0]] + b[1..];
    }
  }

  /** One text is shorter, or of equal length and smaller at the first place where they differ. */
  ghost predicate ComesBefore(a: Bytes, b: Bytes) { |a| < |b| || (|a| == |b| && DiffersSmaller(a, b)) }

  ghost predicate DiffersSmaller(a: Bytes, b: Bytes) {
    exists k | 0 <= k < |a| && k < |b| :: a[..k] == b[..k] && a[k] < b[k]
  }

  lemma {:induction false} CompareIsFirstDifference(a: Bytes, b: Bytes)
    requires |a| == |b|
    ensures CompareBytes(a, b) == Less <==> DiffersSmaller(a, b)
    ensures CompareBytes(a, b) == Greater <==> DiffersSmaller(b, a)
  {
    if a != [] {
      CompareIsFirstDifference(a[1..], b[1..]);
      DifferenceStep(a, b);
      DifferenceStep(b, a);
    }
  }

  lemma DifferenceStep(a: Bytes, b: Bytes)
    requires |a| == |b| > 0
    ensures DiffersSmaller(a, b) <==> a[0] < b[0] || (a[0] == b[0] && DiffersSmaller(a[1..], b[1..]))
  {
    if a[0] < b[0] {
      assert a[..0] == b[..0];
    } else if a[0] == b[0] && DiffersSmaller(a[1..], b[1..]) {
      var k :| 0 <= k < |a[1..]| && a[1..][..k] == b[1..][..k] && a[1..][k] < b[1..][k];
      assert a[..k + 1] == [a[0]] + a[1..][..k] && b[..k + 1] == [b[0]] + b[1..][..k];
      assert a[k + 1] < b[k + 1];
    }
    if DiffersSmaller(a, b) && a[0] >= b[0] {
      var k :| 0 <= k < |a| && a[..k] == b[..k] && a[k] < b[k];
      assert a[..k][0] == b[..k][0];
      assert a[1..][..k - 1] == a[..k][1..] == b[..k][1..] == b[1..][..k - 1];
      assert a[1..][k - 1] < b[1..][k - 1];
    }
  }

  /** Short-lex order puts the text that comes before the other first. */
  lemma ShortLexIff(a: Bytes, b: Bytes)
    ensures ShortLex(a, b) == Less <==> ComesBefore(a, b)
    ensures ShortLex(a, b) == Greater <==> ComesBefore(b, a)
    ensures ShortLex(a, b) == Equal <==> a == b
  {
    CompareEqualIffSame(a, b);
    if |a| == |b| {
      CompareIsFirstDifference(a, b);
    }
  }

  lemma {:induction false} CommonSuffixIsIgnored(a: Bytes, b: Bytes, suffix: Bytes)
    requires |a| == |b|
    ensures CompareBytes(a + suffix, b + suffix) == CompareBytes(a, b)
  {
    if a == [] {
      CompareEqualIffSame(a + suffix, b + suffix);
    } else {
      assert (a + suffix)[1..] == a[1..] + suffix && (b + suffix)[1..] == b[1..] + suffix;
      if a[0] == b[0] {
        CommonSuffixIsIgnored(a[1..], b[1..], suffix);
      }
    }
  }

  /** Padding never shows: buffers compare as the texts they hold, equal exactly when those are, shorter texts first. */
  lemma BuffersCompareAsTexts(a: Buffer, b: Buffer, s: Bytes, t: Bytes, capacity: nat)
    requires Holds(a, s, capacity) && Holds(b, t, capacity)
    ensures Compare(a, b) == ShortLex(s, t)
    ensures a == b <==> s == t
    ensures Compare(a, b) == Equal <==> s == t
    ensures Compare(a, b) == Less <==> ComesBefore(s, t)
    ensures Compare(a, b) == Greater <==> ComesBefore(t, s)
  {
    ShortLexIff(s, t);
    if |s| == |t| {
      var padding := a.bytes[|s|..];
      assert padding == b.bytes[|t|..];
      assert a.bytes == s + padding && b.bytes == t + padding;
      CommonSuffixIsIgnored(s, t, padding);
    }
  }
}
