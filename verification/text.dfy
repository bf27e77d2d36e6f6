/** The two string operations the adapter scan performs on a driver
    description: stripping the trailing NUL characters DXCore leaves in the
    buffer, and .NET's ordinal `string.Contains(string)`. */
module Text {

  const Nul: char := '\0'

  /** `sub` occurs in `s` starting at position `i`. */
  predicate OccursAt(s: string, sub: string, i: int) {
    0 <= i && i + |sub| <= |s| && s[i..i + |sub|] == sub
  }

  /** Ordinal, case-sensitive substring test. The empty string occurs in
      every string, as it does for `string.Contains`. */
  function Contains(s: string, sub: string): (b: bool)
    ensures b <==> exists i :: OccursAt(s, sub, i)
    decreases |s|
  {
    if sub <= s then
      assert OccursAt(s, sub, 0);
      true
    else if |s| == 0 then
      false
    else
      var b := Contains(s[1..], sub);
      assert b ==> exists i :: OccursAt(s, sub, i) by {
        if b {
          var i :| OccursAt(s[1..], sub, i);
          assert s[i + 1..i + 1 + |sub|] == s[1..][i..i + |sub|];
          assert OccursAt(s, sub, i + 1);
        }
      }
      assert !OccursAt(s, sub, 0) by {
        if |sub| <= |s| {
          assert s[0..|sub|] == s[..|sub|];
        }
      }
      assert (exists i :: OccursAt(s, sub, i)) ==> b by {
        if exists i :: OccursAt(s, sub, i) {
          var i :| OccursAt(s, sub, i);
          assert s[1..][i - 1..i - 1 + |sub|] == s[i..i + |sub|];
          assert OccursAt(s[1..], sub, i - 1);
        }
      }
      b
  }

  /** `s` is empty or does not end in NUL. */
  predicate NoTrailingNul(s: string) {
    |s| == 0 || s[|s| - 1] != Nul
  }

  /** Every character of `s` from position `from` on is NUL. */
  predicate AllNulFrom(s: string, from: nat) {
    forall k :: from <= k < |s| ==> s[k] == Nul
  }

  /** Drops NUL characters from the end of `s` while the last one is NUL. */
  function StripTrailingNuls(s: string): (r: string)
    ensures r <= s
    ensures NoTrailingNul(r)
    ensures AllNulFrom(s, |r|)
    decreases |s|
  {
    if |s| > 0 && s[|s| - 1] == Nul then
      var r := StripTrailingNuls(s[..|s| - 1]);
      assert s[..|s| - 1][..|r|] == s[..|r|];
      r
    else
      s
  }

  /** The stripped description of every entry of `raw`, in the same order. */
  function StripAll(raw: seq<string>): (r: seq<string>)
    ensures |r| == |raw|
    ensures forall i :: 0 <= i < |raw| ==> r[i] == StripTrailingNuls(raw[i])
  {
    seq(|raw|, i requires 0 <= i < |raw| => StripTrailingNuls(raw[i]))
  }

  /** The three facts of `StripTrailingNuls`'s contract determine its
      result: any prefix of `s` without a trailing NUL that leaves only
      NULs behind is the stripped string. */
  lemma {:induction false} StripUnique(s: string, t: string)
    requires t <= s && NoTrailingNul(t) && AllNulFrom(s, |t|)
    ensures StripTrailingNuls(s) == t
    decreases |s|
  {
    if |s| > 0 && s[|s| - 1] == Nul {
      assert |t| < |s|;
      assert t <= s[..|s| - 1];
      StripUnique(s[..|s| - 1], t);
    } else {
      assert |t| == |s|;
    }
  }

  /** Stripping a stripped description changes nothing. */
  lemma StripIdempotent(s: string)
    ensures StripTrailingNuls(StripTrailingNuls(s)) == StripTrailingNuls(s)
  {
  }

  /** Stripping leaves everything before the trailing NUL run untouched:
      characters at positions before the last non-NUL survive in place. */
  lemma StripKeepsInterior(s: string, k: nat)
    requires k < |s| && exists j :: k <= j < |s| && s[j] != Nul
    ensures k < |StripTrailingNuls(s)| && StripTrailingNuls(s)[k] == s[k]
  {
  }
}
