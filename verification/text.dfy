/** The few Python string builtins the course-title script relies on
    (`rstrip`, `split(...)[-1]`, `replace`, `title`, `lower`, `in`),
    on ASCII text. */
module Text {

  predicate IsUpper(c: char) { 'A' <= c <= 'Z' }
  predicate IsLower(c: char) { 'a' <= c <= 'z' }
  predicate IsLetter(c: char) { IsUpper(c) || IsLower(c) }

  /** The same letter in upper case; any other character is kept. */
  function ToUpper(c: char): (r: char)
    ensures IsLetter(c) ==> IsUpper(r)
    ensures IsUpper(c) ==> r == c
    ensures IsLower(c) ==> r as int - 'A' as int == c as int - 'a' as int
    ensures !IsLetter(c) ==> r == c
  {
    if IsLower(c) then (c as int - 32) as char else c
  }

  /** The same letter in lower case; any other character is kept. */
  function ToLower(c: char): (r: char)
    ensures IsLetter(c) ==> IsLower(r)
    ensures IsLower(c) ==> r == c
    ensures IsUpper(c) ==> r as int - 'a' as int == c as int - 'A' as int
    ensures !IsLetter(c) ==> r == c
  {
    if IsUpper(c) then (c as int + 32) as char else c
  }

  /** `s.lower()` */
  function Lower(s: string): string
  {
    seq(|s|, i requires 0 <= i < |s| => ToLower(s[i]))
  }

  /** Lowering twice is lowering once. */
  lemma LowerIdempotent(s: string)
    ensures Lower(Lower(s)) == Lower(s)
  {
  }

  /** Lowering forgets case: two texts whose characters agree up to case
      lower to the same text. */
  lemma LowerIgnoresCase(s: string, t: string)
    requires |s| == |t|
    requires forall i :: 0 <= i < |s| ==> ToLower(s[i]) == ToLower(t[i])
    ensures Lower(s) == Lower(t)
  {
  }

  lemma LowerAppend(a: string, b: string)
    ensures Lower(a + b) == Lower(a) + Lower(b)
  {
  }

  /** `p in s`: some position of `s` starts with `p`. */
  function Contains(s: string, p: string): bool
  {
    p <= s || (s != [] && Contains(s[1..], p))
  }

  lemma {:induction false} ContainsFrom(s: string, k: nat, p: string)
    requires k <= |s|
    requires Contains(s[k..], p)
    ensures Contains(s, p)
    decreases k
  {
    if k > 0 {
      assert s[1..][k - 1..] == s[k..];
      ContainsFrom(s[1..], k - 1, p);
    }
  }

  /** A text that contains `w` contains every suffix of `w`. */
  lemma {:induction false} ContainsSuffix(s: string, w: string, k: nat)
    requires k <= |w|
    requires Contains(s, w)
    ensures Contains(s, w[k..])
  {
    if w <= s {
      assert w[k..] <= s[k..];
      ContainsFrom(s, k, w[k..]);
    } else {
      ContainsSuffix(s[1..], w, k);
      ContainsFrom(s, 1, w[k..]);
    }
  }

  /** Text that cannot start a match of `p` may be skipped when looking for `p`. */
  lemma {:induction false} ContainsSkip(x: string, y: string, p: string)
    requires p != []
    requires forall i :: 0 <= i < |x| ==> x[i] != p[0]
    requires Contains(x + y, p)
    ensures Contains(y, p)
  {
    if x == [] {
      assert x + y == y;
    } else {
      assert (x + y)[0] == x[0];
      assert !(p <= x + y);
      assert (x + y)[1..] == x[1..] + y;
      ContainsSkip(x[1..], y, p);
    }
  }

  /** `s.replace(pat, rep)`: a left-to-right scan that rewrites every
      non-overlapping occurrence of `pat`; an empty `pat` puts `rep` before
      every character and at the end, as Python does. */
  function Replace(s: string, pat: string, rep: string): string
    decreases |s|
  {
    if pat == [] then
      (if s == [] then rep else rep + [s[0]] + Replace(s[1..], pat, rep))
    else if s == [] then []
    else if pat <= s then rep + Replace(s[|pat|..], pat, rep)
    else [s[0]] + Replace(s[1..], pat, rep)
  }

  /** Where `pat` does not occur, `replace` changes nothing. */
  lemma {:induction false} ReplaceAbsent(s: string, pat: string, rep: string)
    requires pat != []
    requires !Contains(s, pat)
    ensures Replace(s, pat, rep) == s
    decreases |s|
  {
    if s != [] {
      ReplaceAbsent(s[1..], pat, rep);
    }
  }

  /** Replacing a single character by a text without it removes every copy. */
  lemma {:induction false} ReplaceRemovesChar(s: string, c: char, rep: string)
    requires c !in rep
    ensures c !in Replace(s, [c], rep)
    decreases |s|
  {
    if s != [] {
      ReplaceRemovesChar(s[1..], c, rep);
    }
  }

  /** `replace` never introduces a character that neither the text nor the
      replacement holds. */
  lemma {:induction false} ReplaceKeepsAbsent(s: string, pat: string, rep: string, c: char)
    requires c !in s && c !in rep
    ensures c !in Replace(s, pat, rep)
    decreases |s|
  {
    if pat == [] {
      if s != [] {
        ReplaceKeepsAbsent(s[1..], pat, rep, c);
      }
    } else if s != [] {
      if pat <= s {
        ReplaceKeepsAbsent(s[|pat|..], pat, rep, c);
      } else {
        ReplaceKeepsAbsent(s[1..], pat, rep, c);
      }
    }
  }

  /** `s.rstrip(c)`: the longest prefix of `s` that does not end in `c`;
      everything cut off is `c`. */
  function StripRight(s: string, c: char): (r: string)
    ensures r <= s
    ensures r == [] || r[|r| - 1] != c
    ensures forall i :: |r| <= i < |s| ==> s[i] == c
  {
    if s == [] || s[|s| - 1] != c then s else StripRight(s[..|s| - 1], c)
  }

  /** `s.split(sep)[-1]`: the text after the last `sep`, or all of `s` when
      it holds no `sep`. */
  function LastSegment(s: string, sep: char): (r: string)
    ensures |r| <= |s| && r == s[|s| - |r|..]
    ensures sep !in r
    ensures |r| < |s| ==> s[|s| - |r| - 1] == sep
  {
    if s == [] || s[|s| - 1] == sep then []
    else LastSegment(s[..|s| - 1], sep) + [s[|s| - 1]]
  }

  /** `s.title()` on ASCII: a letter becomes upper case when it starts the
      text or follows a non-letter, lower case when it follows a letter;
      every other character is kept. `afterLetter` says whether the
      character before `s` was a letter. */
  function TitleFrom(s: string, afterLetter: bool): (r: string)
    ensures |r| == |s|
  {
    if s == [] then []
    else
      var c := if !IsLetter(s[0]) then s[0]
               else if afterLetter then ToLower(s[0])
               else ToUpper(s[0]);
      [c] + TitleFrom(s[1..], IsLetter(s[0]))
  }

  function TitleCase(s: string): string
  {
    TitleFrom(s, false)
  }

  lemma {:induction false} TitleFromShape(s: string, afterLetter: bool)
    ensures var r := TitleFrom(s, afterLetter);
      |r| == |s| &&
      (forall i :: 0 <= i < |s| ==> (IsLetter(r[i]) <==> IsLetter(s[i]))) &&
      (forall i :: 0 <= i < |s| && !IsLetter(s[i]) ==> r[i] == s[i]) &&
      (forall i :: 0 <= i < |s| ==> ToLower(r[i]) == ToLower(s[i])) &&
      (forall i :: 0 <= i < |s| && IsLetter(r[i]) ==>
         (IsUpper(r[i]) <==> (if i == 0 then !afterLetter else !IsLetter(r[i - 1]))))
    decreases |s|
  {
    if s != [] {
      TitleFromShape(s[1..], IsLetter(s[0]));
      var r := TitleFrom(s, afterLetter);
      assert r == [r[0]] + TitleFrom(s[1..], IsLetter(s[0]));
    }
  }

  /** After `title()` every letter that starts the text or follows a
      non-letter is upper case, every letter that follows a letter is lower
      case, and the text is otherwise the input: same length, same
      non-letters, same letters up to case. */
  lemma TitleCaseShape(s: string)
    ensures var r := TitleCase(s);
      |r| == |s| &&
      (forall i :: 0 <= i < |s| ==> (IsLetter(r[i]) <==> IsLetter(s[i]))) &&
      (forall i :: 0 <= i < |s| && !IsLetter(s[i]) ==> r[i] == s[i]) &&
      (forall i :: 0 <= i < |s| ==> ToLower(r[i]) == ToLower(s[i])) &&
      (forall i :: 0 <= i < |s| && IsLetter(r[i]) ==>
         (IsUpper(r[i]) <==> (i == 0 || !IsLetter(r[i - 1]))))
  {
    TitleFromShape(s, false);
  }

  /** `title()` never introduces a character that is not a letter. */
  /** `title()` changes case only: the lowered text is the same before and
      after it. */
  lemma LowerOfTitleCase(s: string)
    ensures Lower(TitleCase(s)) == Lower(s)
  {
    TitleCaseShape(s);
    LowerIgnoresCase(TitleCase(s), s);
  }

  lemma TitleCaseKeepsAbsent(s: string, c: char)
    requires !IsLetter(c) && c !in s
    ensures c !in TitleCase(s)
  {
    TitleCaseShape(s);
    var r := TitleCase(s);
    forall i | 0 <= i < |r|
      ensures r[i] != c
    {
    }
  }
}
