/** The course-title repair script: derive a readable title from a course
    URL, and overwrite the placeholder title of every course that has one. */
module CourseTitles {
  import opened Text

  /** The abbreviation fixes, in the order the script applies them:
      the first eight fix the case of common terms, the next two name web
      frameworks, the last five are institution acronyms. */
  const Replacements: seq<(string, string)> := TermFixes + FrameworkFixes + AcronymFixes

  const TermFixes: seq<(string, string)> := [
    ("Ui Ux", "UI/UX"),
    ("Ui/Ux", "UI/UX"),
    ("Html Css", "HTML & CSS"),
    ("Php", "PHP"),
    ("Ai", "AI"),
    ("Api", "API"),
    ("Sql", "SQL"),
    ("Mbc", "MBC")
  ]

  const FrameworkFixes: seq<(string, string)> := [
    ("React Js", "React.js"),
    ("Flask Python React Js", "Flask (Python) & React.js")
  ]

  const AcronymFixes: seq<(string, string)> := [
    ("Jitc", "JITC"),
    ("Ppsdm", "PPSDM"),
    ("Bbpvp", "BBPVP"),
    ("Bpsdmi", "BPSDMI"),
    ("Uad", "UAD")
  ]

  const UnknownTitle := "Unknown Course"
  const BootcampSuffix := " Bootcamp"

  /** The last path segment of the URL once trailing slashes are removed. */
  function Slug(url: string): (r: string)
    ensures '/' !in r
    ensures var base := StripRight(url, '/');
      |r| <= |base| && r == base[|base| - |r|..] && (|r| < |base| ==> base[|base| - |r| - 1] == '/')
    ensures '/' !in url ==> r == url
  {
    LastSegment(StripRight(url, '/'), '/')
  }

  /** Hyphens and percent-encoded spaces become spaces. */
  function Spaced(slug: string): string
  {
    Replace(Replace(slug, "-", " "), "%20", " ")
  }

  /** The rewrites applied one after another, each to the previous result. */
  function ApplyAll(s: string, rules: seq<(string, string)>): string
    decreases |rules|
  {
    if rules == [] then s else ApplyAll(Replace(s, rules[0].0, rules[0].1), rules[1..])
  }

  /** The suffix rule: append " Bootcamp" unless the title already says
      bootcamp or course, or is a "belajar"/"introduction" title. */
  function Suffixed(t: string): string
  {
    var low := Lower(t);
    if !Contains(low, "bootcamp") && !Contains(low, "course") then
      if Contains(low, "belajar") || Contains(low, "introduction") then t
      else t + BootcampSuffix
    else t
  }

  /** The title before the suffix rule. */
  function BaseTitle(url: string): string
  {
    ApplyAll(TitleCase(Spaced(Slug(url))), Replacements)
  }

  /** What the script derives from a URL. */
  function UrlTitle(url: string): string
  {
    Suffixed(BaseTitle(url))
  }

  /** The rewrite loop: each rewrite applied in turn to the title. */
  method Rewrite(cased: string) returns (title: string)
    ensures title == ApplyAll(cased, Replacements)
  {
    title := cased;
    for i := 0 to |Replacements|
      invariant ApplyAll(title, Replacements[i..]) == ApplyAll(cased, Replacements)
    {
      assert Replacements[i..][1..] == Replacements[i + 1..];
      title := Replace(title, Replacements[i].0, Replacements[i].1);
    }
    assert Replacements[|Replacements|..] == [];
  }

  /** The suffix step of the script. */
  method AddSuffix(base: string) returns (title: string)
    ensures title == Suffixed(base)
    ensures Contains(Lower(title), "bootcamp") || Contains(Lower(title), "course") ||
            Contains(Lower(title), "belajar") || Contains(Lower(title), "introduction")
  {
    title := base;
    var low := Lower(title);
    if !Contains(low, "bootcamp") && !Contains(low, "course") {
      if Contains(low, "belajar") || Contains(low, "introduction") {
        // the script re-formats the title unchanged
      } else {
        title := title + BootcampSuffix;
        BootcampMarked(base);
      }
    }
  }

  method UrlToTitle(url: string) returns (title: string)
    ensures title == UrlTitle(url)
    ensures '-' !in title
  {
    var slug := Slug(url);
    title := Replace(Replace(slug, "-", " "), "%20", " ");
    title := TitleCase(title);
    title := Rewrite(title);
    assert title == BaseTitle(url);
    title := AddSuffix(title);
    UrlTitleIsSuffixedBase(url);
    NoHyphen(url);
  }

  lemma {:induction false} ApplyAllSplit(s: string, a: seq<(string, string)>, b: seq<(string, string)>)
    ensures ApplyAll(s, a + b) == ApplyAll(ApplyAll(s, a), b)
    decreases |a|
  {
    if a == [] {
      assert a + b == b;
    } else {
      assert (a + b)[0] == a[0];
      assert (a + b)[1..] == a[1..] + b;
      ApplyAllSplit(Replace(s, a[0].0, a[0].1), a[1..], b);
    }
  }

  lemma {:induction false} ApplyAllKeepsAbsent(s: string, rules: seq<(string, string)>, c: char)
    requires c !in s
    requires forall i :: 0 <= i < |rules| ==> c !in rules[i].1
    ensures c !in ApplyAll(s, rules)
    decreases |rules|
  {
    if rules != [] {
      ReplaceKeepsAbsent(s, rules[0].0, rules[0].1, c);
      ApplyAllKeepsAbsent(Replace(s, rules[0].0, rules[0].1), rules[1..], c);
    }
  }

  lemma RewritesAddNoHyphen()
    ensures forall i :: 0 <= i < |Replacements| ==> '-' !in Replacements[i].1
  {
  }

  lemma SpacedHasNoHyphen(slug: string)
    ensures '-' !in Spaced(slug)
  {
    ReplaceRemovesChar(slug, '-', " ");
    ReplaceKeepsAbsent(Replace(slug, "-", " "), "%20", " ", '-');
  }

  /** The suffix rule introduces no character that is in neither the title
      nor " Bootcamp". */
  lemma SuffixedKeepsAbsent(t: string, c: char)
    requires c !in t && c !in BootcampSuffix
    ensures c !in Suffixed(t)
  {
  }

  lemma SuffixedHasNoHyphen(t: string)
    requires '-' !in t
    ensures '-' !in Suffixed(t)
  {
    SuffixedKeepsAbsent(t, '-');
  }

  /** A derived title is the base title with the suffix rule applied. */
  lemma UrlTitleIsSuffixedBase(url: string)
    ensures UrlTitle(url) == Suffixed(BaseTitle(url))
  {
  }

  lemma SuffixedBaseHasNoHyphen(url: string)
    ensures '-' !in Suffixed(BaseTitle(url))
  {
    BaseHasNoHyphen(url);
    SuffixedHasNoHyphen(BaseTitle(url));
  }

  /** No title derived from a URL contains a hyphen. */
  lemma NoHyphen(url: string)
    ensures '-' !in UrlTitle(url)
  {
    SuffixedBaseHasNoHyphen(url);
    UrlTitleIsSuffixedBase(url);
  }

  /** Before the suffix rule the title has no hyphen: the slug's hyphens
      become spaces, and neither `title()` nor a rewrite brings one back. */
  lemma BaseHasNoHyphen(url: string)
    ensures '-' !in BaseTitle(url)
  {
    var cased := TitleCase(Spaced(Slug(url)));
    SpacedHasNoHyphen(Slug(url));
    TitleCaseKeepsAbsent(Spaced(Slug(url)), '-');
    RewritesAddNoHyphen();
    ApplyAllKeepsAbsent(cased, Replacements, '-');
  }

  /** The rewrite 'React Js' -> 'React.js' cannot make a match of
      'React Js' at the start of its result. */
  lemma {:induction false} ReactPrefixKept(t: string, w: string)
    requires 'R' !in w
    requires w <= Replace(t, "React Js", "React.js")
    ensures w <= t
    decreases |t|
  {
    if w != [] && t != [] {
      var r := Replace(t, "React Js", "React.js");
      assert w[0] == r[0] && w[0] in w;
      if "React Js" <= t {
        assert false;
      } else {
        assert Replace(t, "React Js", "React.js") == [t[0]] + Replace(t[1..], "React Js", "React.js");
        ReactPrefixKept(t[1..], w[1..]);
        assert w == [w[0]] + w[1..];
      }
    }
  }

  lemma ReactNotAtStart(s: string)
    ensures !("React Js" <= Replace(s, "React Js", "React.js"))
  {
    var r := Replace(s, "React Js", "React.js");
    if s != [] {
      if "React Js" <= s {
        assert r == "React.js" + Replace(s[8..], "React Js", "React.js");
        assert r[5] == '.';
      } else {
        assert r == [s[0]] + Replace(s[1..], "React Js", "React.js");
        assert "React Js"[1..] == "eact Js";
        if "React Js" <= r {
          ReactPrefixKept(s[1..], "eact Js");
          assert false;
        }
      }
    }
  }

  /** After the rewrite 'React Js' -> 'React.js', no 'React Js' is left. */
  lemma {:induction false} ReactRewriteLeavesNone(s: string)
    ensures !Contains(Replace(s, "React Js", "React.js"), "React Js")
    decreases |s|
  {
    var r := Replace(s, "React Js", "React.js");
    if s != [] && Contains(r, "React Js") {
      ReactNotAtStart(s);
      if "React Js" <= s {
        var rest := Replace(s[8..], "React Js", "React.js");
        assert r == "React.js" + rest;
        assert r[1..] == "eact.js" + rest;
        ContainsSkip("eact.js", rest, "React Js");
        ReactRewriteLeavesNone(s[8..]);
      } else {
        assert r[1..] == Replace(s[1..], "React Js", "React.js");
        ReactRewriteLeavesNone(s[1..]);
      }
    }
  }

  /** A rewrite of a text that ends in 'React Js' never fires right after
      the rewrite 'React Js' -> 'React.js': leaving it out of the list
      gives the same title. */
  lemma {:induction false} ShadowedRewrite(s: string, rules: seq<(string, string)>, k: nat, key: string)
    requires k + 1 < |rules|
    requires rules[k] == ("React Js", "React.js")
    requires rules[k + 1].0 == key
    requires |key| >= 8 && key[|key| - 8..] == "React Js"
    ensures ApplyAll(s, rules) == ApplyAll(s, rules[..k + 1] + rules[k + 2..])
  {
    var before := ApplyAll(s, rules[..k]);
    var t := Replace(before, "React Js", "React.js");
    ReactRewriteLeavesNone(before);
    if Contains(t, key) {
      ContainsSuffix(t, key, |key| - 8);
      assert false;
    }
    ReplaceAbsent(t, key, rules[k + 1].1);
    assert rules == rules[..k] + rules[k..];
    ApplyAllSplit(s, rules[..k], rules[k..]);
    assert rules[k..][0] == rules[k];
    assert rules[k..][1..] == rules[k + 1..];
    assert rules[k + 1..][0] == rules[k + 1];
    assert rules[k + 1..][1..] == rules[k + 2..];
    assert ApplyAll(s, rules) == ApplyAll(t, rules[k + 2..]);
    assert rules[..k + 1] == rules[..k] + [rules[k]];
    ApplyAllSplit(s, rules[..k], [rules[k]]);
    assert ApplyAll(s, rules[..k + 1]) == t;
    ApplyAllSplit(s, rules[..k + 1], rules[k + 2..]);
  }

  /** The rewrite of 'Flask Python React Js' never fires: the 'React Js'
      rewrite just before it has already turned every 'React Js' into
      'React.js', so every title is the same with that entry left out. */
  lemma FlaskRewriteNeverFires(s: string)
    ensures ApplyAll(s, Replacements) == ApplyAll(s, Replacements[..9] + Replacements[10..])
  {
    ShadowedRewrite(s, Replacements, 8, "Flask Python React Js");
  }

  lemma BootcampMarked(t: string)
    ensures Contains(Lower(t + BootcampSuffix), "bootcamp")
  {
    LowerAppend(t, BootcampSuffix);
    var low := Lower(t) + Lower(BootcampSuffix);
    assert Lower(BootcampSuffix) == " bootcamp";
    assert low[|t| + 1..] == "bootcamp";
    ContainsFrom(low, |t| + 1, "bootcamp");
  }

  /** Every derived title is labelled: its lower-case form mentions
      bootcamp, course, belajar or introduction. */
  lemma SuffixLabels(t: string)
    ensures var low := Lower(Suffixed(t));
      Contains(low, "bootcamp") || Contains(low, "course") ||
      Contains(low, "belajar") || Contains(low, "introduction")
  {
    BootcampMarked(t);
  }

  /** Applying the suffix rule a second time changes nothing. */
  lemma SuffixIdempotent(t: string)
    ensures Suffixed(Suffixed(t)) == Suffixed(t)
  {
    BootcampMarked(t);
  }

  /** The three outcomes of the suffix rule, as the script decides them. */
  lemma SuffixRule(url: string)
    ensures var base, low := BaseTitle(url), Lower(BaseTitle(url));
      (Contains(low, "bootcamp") || Contains(low, "course") ==> UrlTitle(url) == base) &&
      ((!Contains(low, "bootcamp") && !Contains(low, "course") &&
        (Contains(low, "belajar") || Contains(low, "introduction"))) ==> UrlTitle(url) == base) &&
      ((!Contains(low, "bootcamp") && !Contains(low, "course") &&
        !Contains(low, "belajar") && !Contains(low, "introduction")) ==> UrlTitle(url) == base + BootcampSuffix)
  {
  }

  /** A course record: the JSON object's keys and their (text) values. */
  type Course = map<string, string>

  /** The script reads `title` of every course, and `url` of those it patches. */
  predicate Patchable(c: Course)
  {
    "title" in c && (c["title"] == UnknownTitle ==> "url" in c)
  }

  /** A course after the update loop has visited it. */
  function Patched(c: Course): Course
    requires Patchable(c)
  {
    if c["title"] == UnknownTitle then c["title" := UrlTitle(c["url"])] else c
  }

  /** Only a placeholder title changes, to the title derived from the URL;
      every other key and value is kept. */
  lemma PatchedChangesOnlyTitle(c: Course)
    requires Patchable(c)
    ensures Patched(c).Keys == c.Keys
    ensures forall k :: k in c && k != "title" ==> Patched(c)[k] == c[k]
    ensures c["title"] == UnknownTitle ==> Patched(c)["title"] == UrlTitle(c["url"])
    ensures c["title"] != UnknownTitle ==> Patched(c) == c
  {
  }

  /** A placeholder title is replaced by the given derived title. */
  lemma PatchedWith(c: Course, t: string)
    requires Patchable(c) && c["title"] == UnknownTitle && t == UrlTitle(c["url"])
    ensures Patched(c) == c["title" := t]
  {
  }

  /** A course whose title already is the title derived from its URL is
      left as it is. */
  lemma PatchKeepsDerived(c: Course)
    requires Patchable(c) && "url" in c && c["title"] == UrlTitle(c["url"])
    ensures Patched(c) == c
  {
    if c["title"] == UnknownTitle {
      assert c["title" := UrlTitle(c["url"])] == c;
    }
  }

  /** Updating a course a second time changes nothing. */
  lemma PatchIdempotent(c: Course)
    requires Patchable(c)
    ensures Patchable(Patched(c)) && Patched(Patched(c)) == Patched(c)
  {
    if c["title"] == UnknownTitle {
      var d := c["title" := UrlTitle(c["url"])];
      PatchedWith(c, UrlTitle(c["url"]));
      assert d["url"] == c["url"] && d["title"] == UrlTitle(d["url"]);
      PatchKeepsDerived(d);
    }
  }

  /** The course list after the update loop. */
  function PatchAll(courses: seq<Course>): (r: seq<Course>)
    requires forall i :: 0 <= i < |courses| ==> Patchable(courses[i])
    ensures |r| == |courses|
  {
    if courses == [] then []
    else PatchAll(courses[..|courses| - 1]) + [Patched(courses[|courses| - 1])]
  }

  /** The update loop patches each course on its own: course i of the
      result is course i patched. */
  lemma {:induction false} PatchAllAt(courses: seq<Course>, i: nat)
    requires forall k :: 0 <= k < |courses| ==> Patchable(courses[k])
    requires i < |courses|
    ensures PatchAll(courses)[i] == Patched(courses[i])
  {
    if i < |courses| - 1 {
      PatchAllAt(courses[..|courses| - 1], i);
    }
  }

  /** A list whose every course is left alone by the update is left alone
      by the update loop. */
  lemma {:induction false} PatchAllKeepsFixed(courses: seq<Course>)
    requires forall k :: 0 <= k < |courses| ==> Patchable(courses[k]) && Patched(courses[k]) == courses[k]
    ensures PatchAll(courses) == courses
  {
    if courses != [] {
      PatchAllKeepsFixed(courses[..|courses| - 1]);
    }
  }

  /** Running the update loop a second time over its own output changes
      nothing. */
  lemma PatchAllIdempotent(courses: seq<Course>)
    requires forall k :: 0 <= k < |courses| ==> Patchable(courses[k])
    ensures forall k :: 0 <= k < |courses| ==> Patchable(PatchAll(courses)[k])
    ensures PatchAll(PatchAll(courses)) == PatchAll(courses)
  {
    var p := PatchAll(courses);
    forall k | 0 <= k < |p|
      ensures Patchable(p[k]) && Patched(p[k]) == p[k]
    {
      PatchAllAt(courses, k);
      PatchIdempotent(courses[k]);
    }
    PatchAllKeepsFixed(p);
  }

  /** One step of the update loop: a course with the placeholder title
      gets the title derived from its URL; any other course is kept. */
  method PatchCourse(course: Course) returns (patched: Course)
    requires Patchable(course)
    ensures patched == Patched(course)
    ensures patched.Keys == course.Keys
  {
    patched := course;
    if course["title"] == UnknownTitle {
      var title := UrlToTitle(course["url"]);
      PatchedWith(course, title);
      patched := course["title" := title];
    }
  }

  /** The update loop: overwrite, in place, the title of every course whose
      title is the placeholder. */
  method FixTitles(courses: array<Course>)
    requires forall i :: 0 <= i < courses.Length ==> Patchable(courses[i])
    modifies courses
    ensures courses[..] == PatchAll(old(courses[..]))
  {
    ghost var before := courses[..];
    for i := 0 to courses.Length
      invariant courses[..i] == PatchAll(before[..i])
      invariant courses[i..] == before[i..]
    {
      assert before[..i + 1][..i] == before[..i];
      var patched := PatchCourse(courses[i]);
      courses[i] := patched;
      assert courses[..i + 1] == courses[..i] + [patched];
    }
    assert before[..courses.Length] == before;
  }
}
