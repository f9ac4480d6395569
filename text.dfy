/** The two string operations the categoriser relies on: lower-casing a title
    and testing whether a keyword occurs in it as a substring. Characters are
    treated as ASCII: only 'A'..'Z' have a lower-case form. */
module Text {

  function LowerChar(c: char): (d: char)
    ensures !('A' <= d <= 'Z')
    ensures 'A' <= c <= 'Z' ==> d as int == c as int + 32
    ensures !('A' <= c <= 'Z') ==> d == c
  {
    if 'A' <= c <= 'Z' then (c as int + 32) as char else c
  }

  /** `s.lower()` over ASCII. */
  function Lower(s: string): (r: string)
    ensures |r| == |s|
    ensures forall i :: 0 <= i < |s| ==> r[i] == LowerChar(s[i])
  {
    seq(|s|, i requires 0 <= i < |s| => LowerChar(s[i]))
  }

  /** A lower-cased string has no capital letters and lower-casing it again
      changes nothing. */
  lemma LowerIsLower(s: string)
    ensures forall i :: 0 <= i < |Lower(s)| ==> !('A' <= Lower(s)[i] <= 'Z')
    ensures Lower(Lower(s)) == Lower(s)
  {
  }

  /** `k` occurs in `t` starting at position `i`. */
  ghost predicate OccursAt(k: string, t: string, i: int)
  {
    0 <= i && i + |k| <= |t| && t[i..i + |k|] == k
  }

  /** `k` is a substring of `t`: the meaning of the expression `k in t`. */
  ghost predicate Occurs(k: string, t: string)
  {
    exists i :: OccursAt(k, t, i)
  }

  /** `k in t`, computed by trying every start position of `t` from the left. */
  function Contains(t: string, k: string): bool
    decreases |t|
  {
    |k| <= |t| && (t[..|k|] == k || Contains(t[1..], k))
  }

  lemma {:induction false} ContainsIffOccurs(t: string, k: string)
    ensures Contains(t, k) <==> Occurs(k, t)
    decreases |t|
  {
    if |k| <= |t| {
      if t[..|k|] == k {
        assert OccursAt(k, t, 0);
      } else {
        ContainsIffOccurs(t[1..], k);
        if Contains(t[1..], k) {
          var i :| OccursAt(k, t[1..], i);
          var inTail, inWhole := t[1..][i..i + |k|], t[i + 1..i + 1 + |k|];
          forall m | 0 <= m < |k| ensures inTail[m] == inWhole[m] {
          }
          assert inTail == inWhole;
          assert OccursAt(k, t, i + 1);
        }
        if Occurs(k, t) {
          var i :| OccursAt(k, t, i);
          assert i != 0;
          assert t[1..][i - 1..i - 1 + |k|] == t[i..i + |k|];
          assert OccursAt(k, t[1..], i - 1);
        }
      }
    }
  }

  /** A keyword with a capital letter never occurs in a lower-cased string. */
  lemma CapitalNeverOccursInLower(k: string, s: string, j: int)
    requires 0 <= j < |k| && 'A' <= k[j] <= 'Z'
    ensures !Occurs(k, Lower(s))
  {
    forall i | 0 <= i && i + |k| <= |Lower(s)| ensures !OccursAt(k, Lower(s), i) {
      assert Lower(s)[i..i + |k|][j] == Lower(s)[i + j];
    }
  }

  /** A keyword with a character that `t` lacks is not contained in `t`. */
  lemma MissingCharNotContained(t: string, k: string, c: char)
    requires c in k && c !in t
    ensures !Contains(t, k)
  {
    ContainsIffOccurs(t, k);
    var j :| 0 <= j < |k| && k[j] == c;
    forall i | 0 <= i && i + |k| <= |t| ensures !OccursAt(k, t, i) {
      assert t[i..i + |k|][j] == t[i + j];
    }
  }

  lemma PrefixContained(t: string, k: string)
    requires |k| <= |t| && t[..|k|] == k
    ensures Contains(t, k)
  {
  }
}
