/**
 * The two java.lang.String operations the IRI node delegates its identity to:
 * the lexicographic compareTo, modelled by its sign, and the 32-bit hashCode,
 * whose formula is not part of this model.
 *
 * A Java char is one UTF-16 code unit; here one `char` stands for one unit.
 */
module JavaString {

  /** The sign of an int returned by compareTo. */
  datatype Ordering = Less | Equal | Greater {
    /** The sign of the negated result. */
    function Flip(): Ordering {
      match this
      case Less => Greater
      case Equal => Equal
      case Greater => Less
    }
  }

  /** Java's `int`, the type of hashCode(). */
  newtype Int32 = x: int | -0x8000_0000 <= x < 0x8000_0000

  /**
   * Sign of `a.compareTo(b)`: the first position at which the two strings
   * differ decides by the characters there; if there is none, the shorter
   * string comes first.
   */
  function Compare(a: string, b: string): (r: Ordering)
    ensures r == Equal <==> a == b
    decreases |a|
  {
    if |a| == 0 then (if |b| == 0 then Equal else Less)
    else if |b| == 0 then Greater
    else if a[0] < b[0] then Less
    else if a[0] > b[0] then Greater
    else
      assert a == [a[0]] + a[1..] && b == [b[0]] + b[1..];
      Compare(a[1..], b[1..])
  }

  /**
   * The documented lexicographic order, as an independent definition: there
   * is an index k below both lengths where the strings agree before k and
   * a[k] < b[k], or a is a proper prefix of b.
   */
  ghost predicate LexLess(a: string, b: string) {
    || (exists k: nat :: k < |a| && k < |b| && a[..k] == b[..k] && a[k] < b[k])
    || (|a| < |b| && a == b[..|a|])
  }

  /** `a <= b` in the order compareTo induces. */
  predicate AtMost(a: string, b: string) {
    Compare(a, b) != Greater
  }

  /** Two strings with equal first characters are ordered as their tails are. */
  lemma LexLessTails(a: string, b: string)
    requires |a| > 0 && |b| > 0 && a[0] == b[0]
    ensures LexLess(a, b) <==> LexLess(a[1..], b[1..])
  {
    var a', b' := a[1..], b[1..];
    if exists k: nat :: k < |a| && k < |b| && a[..k] == b[..k] && a[k] < b[k] {
      var k: nat :| k < |a| && k < |b| && a[..k] == b[..k] && a[k] < b[k];
      assert k != 0;
      assert a'[..k - 1] == a[1..k] == b[1..k] == b'[..k - 1];
      assert a'[k - 1] < b'[k - 1];
    }
    if exists k: nat :: k < |a'| && k < |b'| && a'[..k] == b'[..k] && a'[k] < b'[k] {
      var k: nat :| k < |a'| && k < |b'| && a'[..k] == b'[..k] && a'[k] < b'[k];
      assert a[..k + 1] == [a[0]] + a'[..k] == [b[0]] + b'[..k] == b[..k + 1];
      assert a[k + 1] < b[k + 1];
    }
    if |a| < |b| && a == b[..|a|] {
      assert a' == b'[..|a'|];
    }
    if |a'| < |b'| && a' == b'[..|a'|] {
      assert a == [a[0]] + a' == [b[0]] + b'[..|a'|] == b[..|a|];
    }
  }

  /** Strings whose first characters differ are ordered by those characters. */
  lemma LexLessHeads(a: string, b: string)
    requires |a| > 0 && |b| > 0 && a[0] != b[0]
    ensures LexLess(a, b) <==> a[0] < b[0]
  {
  }

  /** compareTo is negative exactly when the documented order puts a first. */
  lemma {:induction false} CompareLessIsLexLess(a: string, b: string)
    ensures Compare(a, b) == Less <==> LexLess(a, b)
    decreases |a|
  {
    if |a| == 0 {
      assert a == b[..0];
    } else if |b| == 0 {
    } else if a[0] < b[0] {
      assert a[..0] == b[..0];
    } else if a[0] > b[0] {
      LexLessHeads(a, b);
    } else {
      CompareLessIsLexLess(a[1..], b[1..]);
      LexLessTails(a, b);
    }
  }

  /** Swapping the arguments flips the sign. */
  lemma {:induction false} CompareAntisymmetric(a: string, b: string)
    ensures Compare(b, a) == Compare(a, b).Flip()
    decreases |a|
  {
    if |a| > 0 && |b| > 0 && a[0] == b[0] {
      CompareAntisymmetric(a[1..], b[1..]);
    }
  }

  /** Less is transitive. */
  lemma {:induction false} CompareLessTransitive(a: string, b: string, c: string)
    requires Compare(a, b) == Less && Compare(b, c) == Less
    ensures Compare(a, c) == Less
    decreases |a|
  {
    if |a| > 0 && a[0] == b[0] && b[0] == c[0] {
      CompareLessTransitive(a[1..], b[1..], c[1..]);
    }
  }

  /** A proper prefix sorts first. */
  lemma PrefixSortsFirst(a: string, b: string)
    requires |a| < |b| && a == b[..|a|]
    ensures Compare(a, b) == Less
  {
  }

  /** AtMost is a total order: reflexive, antisymmetric, transitive and total. */
  lemma CompareIsTotalOrder(a: string, b: string, c: string)
    ensures AtMost(a, a)
    ensures AtMost(a, b) && AtMost(b, a) ==> a == b
    ensures AtMost(a, b) && AtMost(b, c) ==> AtMost(a, c)
    ensures AtMost(a, b) || AtMost(b, a)
  {
    CompareAntisymmetric(a, b);
    if Compare(a, b) == Less && Compare(b, c) == Less {
      CompareLessTransitive(a, b, c);
    }
  }
}
