/** The JavaScript string operations the core relies on, over `seq<char>`:
    `includes`, `indexOf`, `replace` with a string pattern, `trim` and an
    ASCII-only `toLowerCase`. */
module Strings {
  import opened Common

  /** `pat` occurs in `s` at offset `i`. */
  predicate StartsAt(s: string, pat: string, i: nat)
  {
    i + |pat| <= |s| && s[i..i + |pat|] == pat
  }

  /** An occurrence of `x + y + z` is an occurrence of each part in turn. */
  lemma StartsAtParts(s: string, p: nat, x: string, y: string, z: string)
    requires StartsAt(s, x + y + z, p)
    ensures StartsAt(s, x, p) && StartsAt(s, y, p + |x|) && StartsAt(s, z, p + |x| + |y|)
  {
    var w := x + y + z;
    var t := s[p..p + |w|];
    assert s[p..p + |x|] == t[..|x|] == w[..|x|];
    assert s[p + |x|..p + |x| + |y|] == t[|x|..|x| + |y|] == w[|x|..|x| + |y|];
    assert s[p + |x| + |y|..p + |w|] == t[|x| + |y|..] == w[|x| + |y|..];
  }

  /** `s.indexOf(pat, from)`: the first offset at or after `from` where `pat` occurs. */
  function IndexOf(s: string, pat: string, from: nat): (r: Option<nat>)
    decreases |s| - from
    ensures r.Some? ==> from <= r.value && r.value + |pat| <= |s|
  {
    if from + |pat| > |s| then None
    else if s[from..from + |pat|] == pat then Some(from)
    else IndexOf(s, pat, from + 1)
  }

  /** The offset found is an occurrence with none before it from `from` on;
      nothing is found only when there is no occurrence from `from` on. */
  lemma {:induction false} IndexOfSpec(s: string, pat: string, from: nat)
    ensures IndexOf(s, pat, from).Some? ==>
              && from <= IndexOf(s, pat, from).value
              && StartsAt(s, pat, IndexOf(s, pat, from).value)
              && forall j :: from <= j < IndexOf(s, pat, from).value ==> !StartsAt(s, pat, j)
    ensures IndexOf(s, pat, from).None? ==> forall j :: from <= j ==> !StartsAt(s, pat, j)
    decreases |s| - from
  {
    if from + |pat| <= |s| && s[from..from + |pat|] != pat {
      IndexOfSpec(s, pat, from + 1);
    }
  }

  /** `pat[k..]` occurs in s at offset j, compared one character at a time. */
  predicate MatchesFrom(s: string, j: nat, pat: string, k: nat)
    requires j <= |s| && k <= |pat|
    decreases |pat| - k
    ensures MatchesFrom(s, j, pat, k) ==> j + (|pat| - k) <= |s|
  {
    k == |pat| || (j < |s| && s[j] == pat[k] && MatchesFrom(s, j + 1, pat, k + 1))
  }

  lemma {:induction false} MatchesFromIff(s: string, j: nat, pat: string, k: nat)
    requires j <= |s| && k <= |pat|
    ensures MatchesFrom(s, j, pat, k) <==> StartsAt(s, pat[k..], j)
    decreases |pat| - k
  {
    if k < |pat| && j < |s| {
      MatchesFromIff(s, j + 1, pat, k + 1);
      assert pat[k..] == [pat[k]] + pat[k + 1..];
      if j + (|pat| - k) <= |s| {
        assert s[j..j + (|pat| - k)] == [s[j]] + s[j + 1..j + (|pat| - k)];
      }
    }
  }

  /** Comparing character by character from the start of `pat` is comparing
      the slice. */
  lemma MatchesAt(s: string, j: nat, pat: string)
    requires j <= |s|
    ensures MatchesFrom(s, j, pat, 0) <==> StartsAt(s, pat, j)
  {
    MatchesFromIff(s, j, pat, 0);
    assert pat[0..] == pat;
  }

  /** `s.includes(pat)`. */
  predicate Includes(s: string, pat: string)
  {
    IndexOf(s, pat, 0).Some?
  }

  lemma IncludesIff(s: string, pat: string)
    ensures Includes(s, pat) <==> exists i: nat :: StartsAt(s, pat, i)
  {
    IndexOfSpec(s, pat, 0);
    if Includes(s, pat) {
      assert StartsAt(s, pat, IndexOf(s, pat, 0).value);
    }
  }

  /** `s.replace(pat, rep)` for a string `pat`: only the first occurrence is
      replaced. Replacement patterns such as `$&` are not interpreted. */
  function Replace(s: string, pat: string, rep: string): string
  {
    match IndexOf(s, pat, 0)
    case None => s
    case Some(i) => s[..i] + rep + s[i + |pat|..]
  }

  /** The first occurrence of `pat` is the one replaced. */
  lemma ReplaceFirst(s: string, pat: string, rep: string, i: nat)
    requires StartsAt(s, pat, i) && forall j :: 0 <= j < i ==> !StartsAt(s, pat, j)
    ensures Replace(s, pat, rep) == s[..i] + rep + s[i + |pat|..]
  {
    IndexOfSpec(s, pat, 0);
  }

  /** Without an occurrence of `pat` the text is kept. */
  lemma ReplaceAbsent(s: string, pat: string, rep: string)
    requires forall j: nat :: !StartsAt(s, pat, j)
    ensures Replace(s, pat, rep) == s
  {
    IndexOfSpec(s, pat, 0);
  }

  /** A JavaScript LineTerminator. */
  predicate IsLineTerminator(c: char)
  {
    c == '\n' || c == '\r' || c == '\U{2028}' || c == '\U{2029}'
  }

  /** What `String.prototype.trim` removes: a WhiteSpace (tab, vertical tab,
      form feed, no-break space, byte order mark and the space separators)
      or a LineTerminator. */
  predicate IsWhiteSpace(c: char)
  {
    || c == '\t' || c == '\U{000B}' || c == '\U{000C}' || c == ' '
    || c == '\U{00A0}' || c == '\U{FEFF}' || c == '\U{1680}'
    || ('\U{2000}' <= c <= '\U{200A}')
    || c == '\U{202F}' || c == '\U{205F}' || c == '\U{3000}'
    || IsLineTerminator(c)
  }

  function TrimStart(s: string): (r: string)
    ensures |r| <= |s|
  {
    if s != [] && IsWhiteSpace(s[0]) then TrimStart(s[1..]) else s
  }

  /** TrimStart cuts a run of white space from the front and stops at a
      character that is not white space. */
  lemma {:induction false} TrimStartSpec(s: string)
    ensures TrimStart(s) == s[|s| - |TrimStart(s)|..]
    ensures forall i :: 0 <= i < |s| - |TrimStart(s)| ==> IsWhiteSpace(s[i])
    ensures TrimStart(s) == [] || !IsWhiteSpace(TrimStart(s)[0])
  {
    if s != [] && IsWhiteSpace(s[0]) {
      TrimStartSpec(s[1..]);
      assert s[1..][|s[1..]| - |TrimStart(s[1..])|..] == s[|s| - |TrimStart(s)|..];
      forall i | 1 <= i < |s| - |TrimStart(s)| ensures IsWhiteSpace(s[i]) {
        assert s[1..][i - 1] == s[i];
      }
    }
  }

  function TrimEnd(s: string): (r: string)
    ensures |r| <= |s|
  {
    if s != [] && IsWhiteSpace(s[|s| - 1]) then TrimEnd(s[..|s| - 1]) else s
  }

  /** TrimEnd cuts a run of white space from the back and stops at a
      character that is not white space. */
  lemma {:induction false} TrimEndSpec(s: string)
    ensures TrimEnd(s) == s[..|TrimEnd(s)|]
    ensures forall i :: |TrimEnd(s)| <= i < |s| ==> IsWhiteSpace(s[i])
    ensures TrimEnd(s) == [] || !IsWhiteSpace(TrimEnd(s)[|TrimEnd(s)| - 1])
  {
    if s != [] && IsWhiteSpace(s[|s| - 1]) {
      var s' := s[..|s| - 1];
      TrimEndSpec(s');
      assert s'[..|TrimEnd(s')|] == s[..|TrimEnd(s)|];
      forall i | |TrimEnd(s)| <= i < |s| - 1 ensures IsWhiteSpace(s[i]) {
        assert s'[i] == s[i];
      }
    }
  }

  /** `s.trim()`. */
  function Trim(s: string): string
  {
    TrimEnd(TrimStart(s))
  }

  /** The trimmed string is a slice of the input with only white space cut
      from both ends, and it is empty exactly when the input is all white space. */
  lemma TrimSpec(s: string)
    ensures exists a, b :: && 0 <= a <= b <= |s| && Trim(s) == s[a..b]
                           && (forall i :: 0 <= i < a ==> IsWhiteSpace(s[i]))
                           && (forall i :: b <= i < |s| ==> IsWhiteSpace(s[i]))
    ensures Trim(s) == [] <==> forall i :: 0 <= i < |s| ==> IsWhiteSpace(s[i])
    ensures Trim(s) != [] ==> !IsWhiteSpace(Trim(s)[0]) && !IsWhiteSpace(Trim(s)[|Trim(s)| - 1])
  {
    var t := TrimStart(s);
    var a := |s| - |t|;
    var r := TrimEnd(t);
    TrimStartSpec(s);
    TrimEndSpec(t);
    assert r == s[a..a + |r|];
    forall i | a + |r| <= i < |s| ensures IsWhiteSpace(s[i]) {
      assert s[i] == t[i - a];
    }
    if r == [] {
      assert t == [];
    } else {
      assert !IsWhiteSpace(s[a]);
    }
  }

  /** `toLowerCase` restricted to ASCII letters. */
  function LowerChar(c: char): char
  {
    if 'A' <= c <= 'Z' then (c as int + 32) as char else c
  }

  function ToLower(s: string): (r: string)
    ensures |r| == |s|
    ensures forall i :: 0 <= i < |s| ==> r[i] == LowerChar(s[i])
  {
    seq(|s|, i requires 0 <= i < |s| => LowerChar(s[i]))
  }

  /** No ASCII letter anywhere in `w`. */
  predicate NoAsciiLetter(w: string)
  {
    forall i :: 0 <= i < |w| ==> !('A' <= w[i] <= 'Z') && !('a' <= w[i] <= 'z')
  }

  /** Lower-casing cannot create or destroy an occurrence of a word that has no
      ASCII letters. */
  lemma LowerKeepsOccurrences(s: string, w: string)
    requires NoAsciiLetter(w)
    ensures Includes(ToLower(s), w) <==> Includes(s, w)
  {
    var t := ToLower(s);
    forall i: nat | i + |w| <= |s| ensures StartsAt(t, w, i) <==> StartsAt(s, w, i) {
      if StartsAt(s, w, i) {
        forall k | 0 <= k < |w| ensures t[i + k] == w[k] {
          assert s[i + k] == s[i..i + |w|][k];
        }
        assert t[i..i + |w|] == w;
      }
      if StartsAt(t, w, i) {
        forall k | 0 <= k < |w| ensures s[i + k] == w[k] {
          assert t[i + k] == t[i..i + |w|][k];
          assert LowerChar(s[i + k]) == w[k];
        }
        assert s[i..i + |w|] == w;
      }
    }
    IncludesIff(t, w);
    IncludesIff(s, w);
  }
}
