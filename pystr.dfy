/**
 * The three Python `str` operations the numbering wrapper applies to its input:
 * `strip()`, `replace(c, '')` and `lower()`.
 */
module PyStr {

  /** Python's `str.isspace` for one character: the 29 code points `strip()` removes. */
  predicate IsSpace(c: char)
  {
    var n := c as int;
    (9 <= n <= 13) || (28 <= n <= 32) || n == 0x85 || n == 0xA0 || n == 0x1680
    || (0x2000 <= n <= 0x200A) || n == 0x2028 || n == 0x2029 || n == 0x202F
    || n == 0x205F || n == 0x3000
  }

  predicate AllSpace(s: string)
  {
    forall i :: 0 <= i < |s| ==> IsSpace(s[i])
  }

  /** How many whitespace characters `s` starts with. */
  function LeadingSpaces(s: string): (n: nat)
    ensures n <= |s|
    ensures n == |s| || !IsSpace(s[n])
  {
    if |s| > 0 && IsSpace(s[0]) then 1 + LeadingSpaces(s[1..]) else 0
  }

  /** How many whitespace characters `s` ends with. */
  function TrailingSpaces(s: string): (n: nat)
    ensures n <= |s|
    ensures n == |s| || !IsSpace(s[|s| - n - 1])
  {
    if |s| > 0 && IsSpace(s[|s| - 1]) then 1 + TrailingSpaces(s[..|s| - 1]) else 0
  }

  /** `s.lstrip()` */
  function LStrip(s: string): string
  {
    s[LeadingSpaces(s)..]
  }

  /**
   * `s.strip()`: the left end first, then the right one. The result is never
   * longer, and neither of its ends is whitespace.
   */
  function Strip(s: string): (r: string)
    ensures |r| <= |s|
    ensures r == [] || (!IsSpace(r[0]) && !IsSpace(r[|r| - 1]))
  {
    var l := LStrip(s);
    var n := |l| - TrailingSpaces(l);
    assert n == 0 || (l[..n][0] == l[0] && l[..n][n - 1] == l[n - 1]);
    l[..n]
  }

  /**
   * `r` sits in `s` at offset `i`, and everything of `s` before and after it is
   * whitespace.
   */
  predicate StrippedAt(s: string, r: string, i: int)
  {
    0 <= i <= |s| - |r| && r == s[i..i + |r|] && AllSpace(s[..i]) && AllSpace(s[i + |r|..])
  }

  /**
   * What `strip()` promises: the result is the window of `s` after its leading
   * whitespace, everything cut off on either side is whitespace, and the window
   * neither starts nor ends with whitespace.
   */
  lemma {:induction false} StripSpec(s: string)
    ensures StrippedAt(s, Strip(s), LeadingSpaces(s))
    ensures s == s[..LeadingSpaces(s)] + Strip(s) + s[LeadingSpaces(s) + |Strip(s)|..]
    ensures Strip(s) == [] || (!IsSpace(Strip(s)[0]) && !IsSpace(Strip(s)[|Strip(s)| - 1]))
  {
    var i := LeadingSpaces(s);
    var r := Strip(s);
    StripWindowOf(s);
    StripRest(s);
    LeadIsSpace(s);
    TrailIsSpace(LStrip(s));
    Window(s, i, i + |r|);
  }

  /** The leading run really is whitespace. */
  lemma {:induction false} LeadIsSpace(s: string)
    ensures AllSpace(s[..LeadingSpaces(s)])
    decreases |s|
  {
    var n := LeadingSpaces(s);
    if n > 0 {
      var rest := s[1..];
      LeadIsSpace(rest);
      var lead, restLead := s[..n], rest[..n - 1];
      forall k | 0 <= k < |lead|
        ensures IsSpace(lead[k])
      {
        if k > 0 {
          assert lead[k] == restLead[k - 1];
        }
      }
    }
  }

  /** The trailing run really is whitespace. */
  lemma {:induction false} TrailIsSpace(s: string)
    ensures AllSpace(s[|s| - TrailingSpaces(s)..])
    decreases |s|
  {
    var n := TrailingSpaces(s);
    if n > 0 {
      var init := s[..|s| - 1];
      TrailIsSpace(init);
      var trail, initTrail := s[|s| - n..], init[|init| - (n - 1)..];
      forall k | 0 <= k < |trail|
        ensures IsSpace(trail[k])
      {
        if k < n - 1 {
          assert trail[k] == s[|s| - n + k] == initTrail[k];
        }
      }
    }
  }

  /** `Strip(s)` is the window of `s` that starts after the leading run. */
  lemma {:induction false} StripWindowOf(s: string)
    ensures LeadingSpaces(s) + |Strip(s)| <= |s|
    ensures Strip(s) == s[LeadingSpaces(s)..LeadingSpaces(s) + |Strip(s)|]
  {
    StripTake(s);
    TakeOfDrop(s, LeadingSpaces(s), |LStrip(s)| - TrailingSpaces(LStrip(s)));
  }

  /** What follows `Strip(s)` in `s` is the trailing run of `LStrip(s)`. */
  lemma {:induction false} StripRest(s: string)
    ensures LeadingSpaces(s) + |Strip(s)| <= |s|
    ensures s[LeadingSpaces(s) + |Strip(s)|..] == LStrip(s)[|LStrip(s)| - TrailingSpaces(LStrip(s))..]
  {
    StripTake(s);
    DropOfDrop(s, LeadingSpaces(s), |LStrip(s)| - TrailingSpaces(LStrip(s)));
  }

  /** `Strip(s)` takes the part of `LStrip(s)` before its trailing run. */
  lemma {:induction false} StripTake(s: string)
    ensures Strip(s) == s[LeadingSpaces(s)..][..|LStrip(s)| - TrailingSpaces(LStrip(s))]
  {
  }

  lemma {:induction false} DropOfDrop(s: string, i: nat, n: nat)
    requires i + n <= |s|
    ensures s[i..][n..] == s[i + n..]
  {
  }

  lemma {:induction false} TakeOfDrop(s: string, i: nat, n: nat)
    requires i + n <= |s|
    ensures s[i..][..n] == s[i..i + n]
  {
  }

  /** A character that is not whitespace does not occur in a run of whitespace. */
  lemma {:induction false} SpaceFree(s: string, c: char)
    requires AllSpace(s) && !IsSpace(c)
    ensures multiset(s)[c] == 0
  {
    assert c !in s;
  }

  /** Cutting whitespace off both ends of `s` leaves every other character's count as it was. */
  lemma {:induction false} KeepsNonSpace(s: string, lead: string, mid: string, trail: string)
    requires s == lead + mid + trail && AllSpace(lead) && AllSpace(trail)
    ensures multiset(mid) <= multiset(s)
    ensures forall c :: !IsSpace(c) ==> multiset(mid)[c] == multiset(s)[c]
  {
    assert multiset(s) == multiset(lead) + multiset(mid) + multiset(trail);
    forall c | !IsSpace(c)
      ensures multiset(mid)[c] == multiset(s)[c]
    {
      SpaceFree(lead, c);
      SpaceFree(trail, c);
    }
  }

  lemma {:induction false} Window(s: string, i: nat, j: nat)
    requires i <= j <= |s|
    ensures s == s[..i] + s[i..j] + s[j..]
  {
  }

  /** `s.replace(c, '')`: every `c` is gone and nothing is added. */
  function Remove(s: string, c: char): (r: string)
    ensures c !in r
    ensures |r| <= |s|
  {
    if s == [] then []
    else (if s[0] == c then [] else [s[0]]) + Remove(s[1..], c)
  }

  /** Every character other than `c` keeps its count. */
  lemma {:induction false} RemoveCounts(s: string, c: char)
    ensures multiset(Remove(s, c)) == multiset(s)[c := 0]
    decreases |s|
  {
    if s != [] {
      RemoveCounts(s[1..], c);
      assert s == [s[0]] + s[1..];
    }
  }

  /** Removal works piece by piece, so the characters that stay keep their order. */
  lemma {:induction false} RemoveAppend(a: string, b: string, c: char)
    ensures Remove(a + b, c) == Remove(a, c) + Remove(b, c)
  {
    if a == [] {
      assert a + b == b;
    } else {
      var h, rest := a[0], a[1..];
      var head := if h == c then [] else [h];
      assert a == [h] + rest;
      assert a + b == [h] + (rest + b);
      RemoveAppend(rest, b, c);
      RemoveCons(h, rest + b, c);
      RemoveCons(h, rest, c);
      Associative(head, Remove(rest, c), Remove(b, c));
    }
  }

  lemma {:induction false} Associative(x: string, y: string, z: string)
    ensures x + (y + z) == (x + y) + z
  {
  }

  /** Removal looks at the first character, then at the rest. */
  lemma {:induction false} RemoveCons(h: char, rest: string, c: char)
    ensures Remove([h] + rest, c) == (if h == c then [] else [h]) + Remove(rest, c)
  {
    assert ([h] + rest)[1..] == rest;
  }

  /** Removing a character that does not occur changes nothing. */
  lemma {:induction false} RemoveAbsent(s: string, c: char)
    requires c !in s
    ensures Remove(s, c) == s
  {
    if s != [] {
      RemoveAbsent(s[1..], c);
    }
  }

  /** A string that neither starts nor ends with whitespace is its own `strip()`. */
  lemma {:induction false} StripKeeps(s: string)
    requires s == [] || (!IsSpace(s[0]) && !IsSpace(s[|s| - 1]))
    ensures Strip(s) == s
  {
    assert LeadingSpaces(s) == 0;
    assert LStrip(s) == s;
    assert TrailingSpaces(s) == 0;
  }

  /** `strip()` is idempotent. */
  lemma {:induction false} StripIdempotent(s: string)
    ensures Strip(Strip(s)) == Strip(s)
  {
    StripSpec(s);
    StripKeeps(Strip(s));
  }

  predicate IsAsciiUpper(c: char)
  {
    'A' <= c <= 'Z'
  }

  /** `str.lower()` on one character, for the ASCII letters. */
  function LowerChar(c: char): char
  {
    if IsAsciiUpper(c) then (c as int + 32) as char else c
  }

  /**
   * `s.lower()`: same length, no upper-case letter left, and each character
   * either kept or replaced by its lower-case letter.
   */
  function Lower(s: string): (r: string)
    ensures |r| == |s|
    ensures forall i :: 0 <= i < |r| ==> !IsAsciiUpper(r[i])
    ensures forall i :: 0 <= i < |r| ==>
      r[i] == s[i] || (IsAsciiUpper(s[i]) && r[i] as int == s[i] as int + 32)
  {
    seq(|s|, i requires 0 <= i < |s| => LowerChar(s[i]))
  }

  /** Lower-casing twice is lower-casing once. */
  lemma {:induction false} LowerIdempotent(s: string)
    ensures Lower(Lower(s)) == Lower(s)
  {
    assert forall i :: 0 <= i < |s| ==> Lower(Lower(s))[i] == LowerChar(Lower(s)[i]) == Lower(s)[i];
  }
}
