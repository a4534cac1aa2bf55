/** The order that strcmp computes (common/string.c), as a function of the two texts. */
module StringOrder {
  import opened CTypes

  /** The difference of the first two bytes that differ, terminators included; 0 if there are none. */
  function Compare(a: seq<Byte>, b: seq<Byte>): int {
    if a == [] then (if b == [] then 0 else -b[0])
    else if b == [] then a[0]
    else if a[0] != b[0] then a[0] - b[0]
    else Compare(a[1..], b[1..])
  }

  /** How the comparison of two texts goes on from position i, where a text that has ended counts as a NUL. */
  lemma CompareFrom(a: seq<Byte>, b: seq<Byte>, i: nat)
    requires i <= |a| && i <= |b|
    ensures var x: int := if i < |a| then a[i] else 0;
            var y: int := if i < |b| then b[i] else 0;
            Compare(a[i..], b[i..])
            == if x == y && i < |a| && i < |b| then Compare(a[i + 1..], b[i + 1..]) else x - y
  {
    assert i < |a| ==> a[i..][1..] == a[i + 1..];
    assert i < |b| ==> b[i..][1..] == b[i + 1..];
  }

  /** a and b agree before position k, where a has ended or holds the smaller byte. */
  ghost predicate LessAt(a: seq<Byte>, b: seq<Byte>, k: nat) {
    && k <= |a| && k < |b|
    && a[..k] == b[..k]
    && (k == |a| || a[k] < b[k])
  }

  /** Lexicographic order on unsigned bytes. */
  ghost predicate Less(a: seq<Byte>, b: seq<Byte>) {
    exists k: nat :: LessAt(a, b, k)
  }

  /** Zero means equal. */
  lemma {:induction false} CompareZero(a: seq<Byte>, b: seq<Byte>)
    requires IsText(a) && IsText(b)
    ensures Compare(a, b) == 0 <==> a == b
  {
    if a != [] && b != [] && a[0] == b[0] {
      CompareZero(a[1..], b[1..]);
      assert a == [a[0]] + a[1..] && b == [b[0]] + b[1..];
    }
  }

  lemma {:induction false} CompareSwap(a: seq<Byte>, b: seq<Byte>)
    ensures Compare(a, b) == -Compare(b, a)
  {
    if a != [] && b != [] && a[0] == b[0] {
      CompareSwap(a[1..], b[1..]);
    }
  }

  /** Negative means lexicographically smaller, and only that. */
  lemma {:induction false} CompareNegative(a: seq<Byte>, b: seq<Byte>)
    requires IsText(a) && IsText(b)
    ensures Compare(a, b) < 0 <==> Less(a, b)
  {
    if a == [] {
      assert b != [] ==> LessAt(a, b, 0);
    } else if b != [] && a[0] == b[0] {
      CompareNegative(a[1..], b[1..]);
      if Less(a[1..], b[1..]) {
        var k: nat :| LessAt(a[1..], b[1..], k);
        assert a[..k + 1] == [a[0]] + a[1..][..k] && b[..k + 1] == [b[0]] + b[1..][..k];
        assert LessAt(a, b, k + 1);
      }
      if Less(a, b) {
        var k: nat :| LessAt(a, b, k);
        assert a[1..][..k - 1] == a[..k][1..] && b[1..][..k - 1] == b[..k][1..];
        assert LessAt(a[1..], b[1..], k - 1);
      }
    } else if b != [] {
      assert a[0] < b[0] ==> LessAt(a, b, 0);
      FirstAgrees(a, b);
    }
  }

  lemma FirstAgrees(a: seq<Byte>, b: seq<Byte>)
    requires a != [] && b != []
    ensures forall k: nat | k > 0 && LessAt(a, b, k) :: a[0] == b[0]
  {
    forall k: nat | k > 0 && LessAt(a, b, k)
      ensures a[0] == b[0]
    {
      assert a[0] == a[..k][0] && b[0] == b[..k][0];
    }
  }

  lemma {:induction false} CompareTransitive(a: seq<Byte>, b: seq<Byte>, c: seq<Byte>)
    requires IsText(a) && IsText(b) && IsText(c)
    requires Compare(a, b) < 0 && Compare(b, c) < 0
    ensures Compare(a, c) < 0
  {
    if a != [] && b != [] && c != [] && a[0] == b[0] == c[0] {
      CompareTransitive(a[1..], b[1..], c[1..]);
    }
  }

  /** strncmp over the length of p is zero exactly if starts_with finds p at the start of s. */
  lemma PrefixCompare(p: seq<Byte>, s: seq<Byte>)
    requires IsText(p) && IsText(s)
    ensures Compare(p[..Min(|p|, |p|)], s[..Min(|p|, |s|)]) == 0 <==> p <= s
  {
    assert p[..|p|] == p;
    CompareZero(p, s[..Min(|p|, |s|)]);
  }
}
