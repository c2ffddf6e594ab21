/**
 * The handful of `java.lang.String` operations the tracker relies on:
 * `trim().isEmpty()` (a blank check), `matches("\\d+")`, `toLowerCase()`
 * and `contains`.  A string is a sequence of characters (Unicode scalar
 * values).
 */
module Text {

  /** `trim` removes every leading and trailing character `<= ' '`. */
  predicate Trimmable(c: char)
  {
    c <= ' '
  }

  /** `s` with its leading trimmable characters removed. */
  function TrimStart(s: string): (r: string)
    ensures |r| <= |s| && r == s[|s| - |r|..]
    ensures r == [] || !Trimmable(r[0])
    ensures forall k :: 0 <= k < |s| - |r| ==> Trimmable(s[k])
  {
    if s == [] || !Trimmable(s[0]) then s else TrimStart(s[1..])
  }

  /** `s` with its trailing trimmable characters removed. */
  function TrimEnd(s: string): (r: string)
    ensures |r| <= |s| && r == s[..|r|]
    ensures r == [] || !Trimmable(r[|r| - 1])
    ensures forall k :: |r| <= k < |s| ==> Trimmable(s[k])
  {
    if s == [] || !Trimmable(s[|s| - 1]) then s else TrimEnd(s[..|s| - 1])
  }

  /** `t` occurs in `s` starting at position `i`. */
  predicate OccursAt(s: string, t: string, i: int)
  {
    0 <= i <= |s| - |t| && s[i..i + |t|] == t
  }

  /** `String.trim`: the infix left once the trimmable characters at both
      ends are removed. */
  function Trim(s: string): (r: string)
    ensures exists i {:trigger OccursAt(s, r, i)} ::
      OccursAt(s, r, i) && IsBlank(s[..i]) && IsBlank(s[i + |r|..])
    ensures r != [] ==> !Trimmable(r[0]) && !Trimmable(r[|r| - 1])
  {
    var t := TrimStart(s);
    var r := TrimEnd(t);
    TrimSplits(s, t, r);
    r
  }

  /** Removing a blank prefix of `s` to give `t`, then a blank suffix of
      `t` to give `r`, leaves `r` between a blank prefix and a blank suffix
      of `s`. */
  lemma TrimSplits(s: string, t: string, r: string)
    requires |t| <= |s| && t == s[|s| - |t|..]
    requires forall k :: 0 <= k < |s| - |t| ==> Trimmable(s[k])
    requires |r| <= |t| && r == t[..|r|]
    requires forall k :: |r| <= k < |t| ==> Trimmable(t[k])
    ensures OccursAt(s, r, |s| - |t|)
    ensures IsBlank(s[..|s| - |t|]) && IsBlank(s[|s| - |t| + |r|..])
  {
    var i := |s| - |t|;
    assert t == s[i..];
    assert r == t[..|r|];
    forall k | 0 <= k < |r| ensures s[i..i + |r|][k] == r[k] {
      assert r[k] == t[k] == s[i + k];
    }
    assert s[i..i + |r|] == r;
    forall k | 0 <= k < i ensures Trimmable(s[..i][k]) {
      assert s[..i][k] == s[k];
    }
    assert s[i + |r|..] == t[|r|..];
    forall k | 0 <= k < |t| - |r| ensures Trimmable(t[|r|..][k]) {
      assert t[|r|..][k] == t[|r| + k];
    }
  }

  /** Every character of `s` is `<= ' '`; the empty string is blank. */
  predicate IsBlank(s: string)
  {
    forall k :: 0 <= k < |s| ==> Trimmable(s[k])
  }

  /** `s.trim().isEmpty()` holds exactly for the blank strings. */
  lemma TrimEmptyIffBlank(s: string)
    ensures Trim(s) == [] <==> IsBlank(s)
  {
    var t := TrimStart(s);
    if t != [] {
      assert TrimEnd(t) != [] by {
        assert !Trimmable(t[0]);
      }
      assert !Trimmable(s[|s| - |t|]);
    }
  }

  /** `s.matches("\\d+")`: one or more ASCII digits and nothing else. */
  predicate IsDigits(s: string)
    ensures IsDigits(s) ==> s != [] && !Trimmable(s[0]) && !Trimmable(s[|s| - 1])
  {
    |s| > 0 && forall k :: 0 <= k < |s| ==> '0' <= s[k] <= '9'
  }

  /** `Character.toLowerCase` on the ASCII upper-case letters; every other
      character is left as it is. */
  function LowerChar(c: char): (d: char)
    ensures 'A' <= c <= 'Z' ==> 'a' <= d <= 'z' && d as int - c as int == 32
    ensures !('A' <= c <= 'Z') ==> d == c
  {
    if 'A' <= c <= 'Z' then (c as int + 32) as char else c
  }

  /** `String.toLowerCase`, character by character. */
  function Lower(s: string): (r: string)
    ensures |r| == |s|
    ensures forall k :: 0 <= k < |s| ==> r[k] == LowerChar(s[k])
  {
    if s == [] then [] else [LowerChar(s[0])] + Lower(s[1..])
  }

  /** Lower-casing twice changes nothing more. */
  lemma LowerIdempotent(s: string)
    ensures Lower(Lower(s)) == Lower(s)
  {
    assert forall k :: 0 <= k < |s| ==> LowerChar(LowerChar(s[k])) == LowerChar(s[k]);
  }

  /** `t` is a prefix of `s`: one start position tried by `Contains`. */
  predicate StartsWith(s: string, t: string)
  {
    |t| <= |s| && s[..|t|] == t
  }

  /** `s.contains(t)`: try every start position from the left. */
  function Contains(s: string, t: string): (b: bool)
    ensures t == [] ==> b
    ensures b ==> |t| <= |s|
  {
    StartsWith(s, t) || (s != [] && Contains(s[1..], t))
  }

  /** `Contains` holds exactly when `t` occurs in `s` at some position. */
  lemma {:induction false} ContainsIffOccurs(s: string, t: string)
    ensures Contains(s, t) <==> exists i :: OccursAt(s, t, i)
  {
    if StartsWith(s, t) {
      assert OccursAt(s, t, 0);
    } else if s != [] {
      ContainsIffOccurs(s[1..], t);
      if Contains(s[1..], t) {
        var i :| OccursAt(s[1..], t, i);
        assert s[i + 1..i + 1 + |t|] == s[1..][i..i + |t|];
        assert OccursAt(s, t, i + 1);
      }
      if exists i :: OccursAt(s, t, i) {
        var i :| OccursAt(s, t, i);
        assert i != 0;
        assert s[1..][i - 1..i - 1 + |t|] == s[i..i + |t|];
        assert OccursAt(s[1..], t, i - 1);
      }
    }
  }
}
