/**
 * The two Python string built-ins the core relies on: `str.strip()` with no
 * argument, and the substring test `sub in s`.
 */
module Text {

  /** Python's `str.isspace` for one character: the characters `str.strip()`
      removes when it is given no argument. */
  predicate IsSpace(c: char) {
    || ('\t' <= c <= '\r')
    || ('\U{1c}' <= c <= '\U{1f}')
    || c == ' '
    || c == '\U{85}'
    || c == '\U{a0}'
    || c == '\U{1680}'
    || ('\U{2000}' <= c <= '\U{200a}')
    || c == '\U{2028}'
    || c == '\U{2029}'
    || c == '\U{202f}'
    || c == '\U{205f}'
    || c == '\U{3000}'
  }

  predicate AllSpace(s: string) {
    forall k :: 0 <= k < |s| ==> IsSpace(s[k])
  }

  /** Neither starts nor ends with whitespace. */
  predicate Stripped(s: string) {
    s != [] ==> !IsSpace(s[0]) && !IsSpace(s[|s| - 1])
  }

  /** `r` is `s` with `lead` characters cut from the front and only whitespace
      cut from either end. */
  ghost predicate StripsTo(s: string, lead: int, r: string) {
    && 0 <= lead <= lead + |r| <= |s|
    && s[lead..lead + |r|] == r
    && AllSpace(s[..lead])
    && AllSpace(s[lead + |r|..])
  }

  /** How many whitespace characters `s` starts with. */
  function LeadingSpace(s: string): (n: nat)
    ensures n <= |s|
  {
    if s != [] && IsSpace(s[0]) then 1 + LeadingSpace(s[1..]) else 0
  }

  /** How many whitespace characters `s` ends with. */
  function TrailingSpace(s: string): (n: nat)
    ensures n <= |s|
  {
    if s != [] && IsSpace(s[|s| - 1]) then 1 + TrailingSpace(s[..|s| - 1]) else 0
  }

  /** The leading run counted is all whitespace, and the character after it
      is not. */
  lemma {:induction false} LeadingSpaceSpec(s: string)
    ensures forall k :: 0 <= k < LeadingSpace(s) ==> IsSpace(s[k])
    ensures LeadingSpace(s) < |s| ==> !IsSpace(s[LeadingSpace(s)])
  {
    if s != [] && IsSpace(s[0]) {
      LeadingSpaceSpec(s[1..]);
      forall k | 1 <= k < LeadingSpace(s) ensures IsSpace(s[k]) {
        assert s[1..][k - 1] == s[k];
      }
    }
  }

  /** The trailing run counted is all whitespace, and the character before it
      is not. */
  lemma {:induction false} TrailingSpaceSpec(s: string)
    ensures forall k :: |s| - TrailingSpace(s) <= k < |s| ==> IsSpace(s[k])
    ensures TrailingSpace(s) < |s| ==> !IsSpace(s[|s| - 1 - TrailingSpace(s)])
  {
    if s != [] && IsSpace(s[|s| - 1]) {
      TrailingSpaceSpec(s[..|s| - 1]);
    }
  }

  /** `s.strip()`: `s` without the whitespace at its two ends. */
  function Strip(s: string): string {
    var t := s[LeadingSpace(s)..];
    t[..|t| - TrailingSpace(t)]
  }

  /** The first and last characters `Strip(s)` keeps are not whitespace. */
  lemma StripEnds(s: string)
    ensures Stripped(Strip(s))
  {
    var i := LeadingSpace(s);
    var t := s[i..];
    var j := |t| - TrailingSpace(t);
    if j > 0 {
      LeadingSpaceSpec(s);
      TrailingSpaceSpec(t);
      assert Strip(s)[0] == s[i] && Strip(s)[j - 1] == t[j - 1];
    }
  }

  /** The run of leading whitespace, as a slice. */
  lemma LeadingRunIsSpace(s: string)
    ensures AllSpace(s[..LeadingSpace(s)])
  {
    LeadingSpaceSpec(s);
    var n := LeadingSpace(s);
    forall k | 0 <= k < n ensures IsSpace(s[..n][k]) {
      assert s[..n][k] == s[k];
    }
  }

  /** The run of trailing whitespace, as a slice. */
  lemma TrailingRunIsSpace(t: string)
    ensures AllSpace(t[|t| - TrailingSpace(t)..])
  {
    TrailingSpaceSpec(t);
    var j := |t| - TrailingSpace(t);
    forall k | 0 <= k < |t| - j ensures IsSpace(t[j..][k]) {
      assert t[j..][k] == t[j + k];
    }
  }

  /** What `Strip(s)` drops on either side is whitespace. */
  lemma StripDropsSpace(s: string)
    ensures StripsTo(s, LeadingSpace(s), Strip(s))
  {
    var i := LeadingSpace(s);
    var t := s[i..];
    var j := |t| - TrailingSpace(t);
    assert s[i..i + j] == t[..j];
    assert s[i + j..] == t[j..];
    LeadingRunIsSpace(s);
    TrailingRunIsSpace(t);
  }

  /** `Strip(s)` neither starts nor ends with whitespace, and it is what is
      left of `s` once only whitespace is removed from its two ends. */
  lemma StripSpec(s: string)
    ensures Stripped(Strip(s))
    ensures StripsTo(s, LeadingSpace(s), Strip(s))
  {
    StripEnds(s);
    StripDropsSpace(s);
  }

  /** The characterisation above determines the result: any stripped text that
      `s` reduces to by removing whitespace at its ends is `Strip(s)`. */
  lemma StripUnique(s: string, lead: int, r: string)
    requires StripsTo(s, lead, r) && Stripped(r)
    ensures r == Strip(s)
  {
    var t := Strip(s);
    var lead' := LeadingSpace(s);
    StripSpec(s);
    // Any character outside the part kept is whitespace, and a stripped part
    // starts and ends with a character that is not.
    forall k | 0 <= k < |s| && (k < lead || lead + |r| <= k)
      ensures IsSpace(s[k])
    {
      if k < lead { assert s[..lead][k] == s[k]; }
      else { assert s[lead + |r|..][k - lead - |r|] == s[k]; }
    }
    forall k | 0 <= k < |s| && (k < lead' || lead' + |t| <= k)
      ensures IsSpace(s[k])
    {
      if k < lead' { assert s[..lead'][k] == s[k]; }
      else { assert s[lead' + |t|..][k - lead' - |t|] == s[k]; }
    }
    if r != [] {
      assert s[lead] == r[0] && s[lead + |r| - 1] == r[|r| - 1];
    }
    if t != [] {
      assert s[lead'] == t[0] && s[lead' + |t| - 1] == t[|t| - 1];
    }
    if r != [] && t != [] {
      assert lead == lead';
      assert |r| == |t|;
    }
  }

  /** Stripping twice is stripping once. */
  lemma StripIdempotent(s: string)
    ensures Strip(Strip(s)) == Strip(s)
  {
    var t := Strip(s);
    StripSpec(s);
    assert t[..0] == [] && t[0 + |t|..] == [] && t[0..|t|] == t;
    assert StripsTo(t, 0, t);
    StripUnique(t, 0, t);
  }

  /** `sub` occurs in `s` starting at position `i`. */
  ghost predicate OccursAt(s: string, sub: string, i: int) {
    0 <= i <= |s| - |sub| && s[i..i + |sub|] == sub
  }

  /** `sub in s`: `sub` occurs in `s` at some position. */
  ghost predicate Occurs(s: string, sub: string) {
    exists i :: OccursAt(s, sub, i)
  }

  /** The substring test, searching left to right. */
  function Contains(s: string, sub: string): (b: bool)
    ensures b <==> Occurs(s, sub)
  {
    if |s| < |sub| then false
    else if s[..|sub|] == sub then (assert OccursAt(s, sub, 0); true)
    else
      var b := Contains(s[1..], sub);
      assert b ==> Occurs(s, sub) by {
        if b {
          var i :| OccursAt(s[1..], sub, i);
          assert s[1..][i..i + |sub|] == s[i + 1..i + 1 + |sub|];
          assert OccursAt(s, sub, i + 1);
        }
      }
      assert Occurs(s, sub) ==> b by {
        if Occurs(s, sub) {
          var i :| OccursAt(s, sub, i);
          assert i != 0;
          assert s[1..][i - 1..i - 1 + |sub|] == s[i..i + |sub|];
          assert OccursAt(s[1..], sub, i - 1);
        }
      }
      b
  }
}
