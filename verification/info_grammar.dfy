/** The grammar of a database descriptor, stated declaratively: the anchored Go regular
    expression
        ^Version: (\d+\.\d+\.\d+) Features: ([\w\s]+)? Mode: (\w+)$
    accepts exactly the strings that `Render` produces from well-formed `Fields`.
    Without the multi-line flag `^` and `$` match only at the very start and end of the
    text, so the whole string must be one rendering. */
module InfoGrammar {
  import opened CharClasses

  const VersionTag := "Version: "
  const FeaturesTag := " Features: "
  const ModeTag := " Mode: "

  /** The pieces a descriptor is built from: the three version numbers, the feature
      text and the mode word. An absent features group is the empty string, as Go's
      `FindStringSubmatch` reports it. */
  datatype Fields = Fields(major: string, minor: string, patch: string, features: string, mode: string)

  /** `\d+` for each version number, `([\w\s]+)?` for the features, `\w+` for the mode. */
  predicate WellFormed(f: Fields)
  {
    && |f.major| > 0 && All(f.major, Digit)
    && |f.minor| > 0 && All(f.minor, Digit)
    && |f.patch| > 0 && All(f.patch, Digit)
    && All(f.features, WordOrSpace)
    && |f.mode| > 0 && All(f.mode, Word)
  }

  /** The first capture group, `\d+\.\d+\.\d+`. */
  function VersionOf(f: Fields): string
  {
    f.major + "." + f.minor + "." + f.patch
  }

  function Render(f: Fields): string
  {
    VersionTag + VersionOf(f) + FeaturesTag + f.features + ModeTag + f.mode
  }

  /** The anchored regular expression accepts `s`. */
  ghost predicate Matches(s: string)
  {
    exists f :: WellFormed(f) && Render(f) == s
  }

  /** Three non-empty runs of ASCII digits joined by two dots, told apart by where the
      dots are. */
  ghost predicate IsDottedTriple(v: string)
  {
    exists i, j :: 0 < i && i + 1 < j && j + 1 < |v| && v[i] == '.' && v[j] == '.'
      && All(v[..i], Digit) && All(v[i + 1..j], Digit) && All(v[j + 1..], Digit)
  }

  /** The version group of a well-formed descriptor is a dotted triple, and it is the
      text that directly follows `Version: `. */
  lemma VersionGroup(f: Fields)
    requires WellFormed(f)
    ensures IsDottedTriple(VersionOf(f))
    ensures VersionTag + VersionOf(f) <= Render(f)
  {
    var v := VersionOf(f);
    var i, j := |f.major|, |f.major| + 1 + |f.minor|;
    assert v[..i] == f.major;
    assert v[i + 1..j] == f.minor;
    assert v[j + 1..] == f.patch;
    assert v[i] == '.' && v[j] == '.';
    var s := Render(f);
    assert s == VersionTag + v + (FeaturesTag + f.features + ModeTag + f.mode);
  }

  /** Index of the last occurrence of `c` in `w`, or -1 when there is none. */
  function LastIndexOf(w: string, c: char): (i: int)
    ensures -1 <= i < |w|
    ensures 0 <= i ==> w[i] == c && c !in w[i + 1..]
    ensures i < 0 ==> c !in w
  {
    if w == [] then -1
    else if w[|w| - 1] == c then |w| - 1
    else
      var i := LastIndexOf(w[..|w| - 1], c);
      assert w[..|w| - 1] + [w[|w| - 1]] == w;
      i
  }

  /** In `u + [c] + v` with `c` absent from `v`, the last `c` is the one after `u`. */
  lemma {:induction false} LastIndexAt(u: string, c: char, v: string)
    requires c !in v
    ensures LastIndexOf(u + [c] + v, c) == |u|
  {
    var w := u + [c] + v;
    if v == [] {
      assert w[|w| - 1] == c;
    } else {
      assert w[|w| - 1] == v[|v| - 1];
      assert w[..|w| - 1] == u + [c] + v[..|v| - 1];
      LastIndexAt(u, c, v[..|v| - 1]);
    }
  }

  /** Splitting a string at its last colon is unique. */
  lemma SplitAtLastColon(u: string, v: string, u': string, v': string)
    requires ':' !in v && ':' !in v'
    requires u + [':'] + v == u' + [':'] + v'
    ensures u == u' && v == v'
  {
    LastIndexAt(u, ':', v);
    LastIndexAt(u', ':', v');
    var w := u + [':'] + v;
    assert u == w[..|u|] && u' == w[..|u'|];
    assert v == w[|u| + 1..] && v' == w[|u'| + 1..];
  }

  /** A descriptor up to the colon of its mode tag. */
  function BeforeModeColon(f: Fields): string
  {
    VersionTag + VersionOf(f) + FeaturesTag + f.features + " Mode"
  }

  /** A descriptor up to the colon of its features tag. */
  function BeforeFeaturesColon(f: Fields): string
  {
    VersionTag + VersionOf(f) + " Features"
  }

  /** Text in front of a descriptor stays in front once the mode word is cut off. */
  lemma PeelMode(g: Fields, x: string, f: Fields)
    requires WellFormed(g) && WellFormed(f)
    requires Render(g) == x + Render(f)
    ensures BeforeModeColon(g) == x + BeforeModeColon(f)
  {
    ColonOutsideClasses(g.mode, Word);
    ColonOutsideClasses(f.mode, Word);
    assert Render(g) == BeforeModeColon(g) + [':'] + (" " + g.mode);
    assert x + Render(f) == (x + BeforeModeColon(f)) + [':'] + (" " + f.mode);
    SplitAtLastColon(BeforeModeColon(g), " " + g.mode, x + BeforeModeColon(f), " " + f.mode);
  }

  /** Text in front of a descriptor stays in front once the features are cut off. */
  lemma PeelFeatures(g: Fields, x: string, f: Fields)
    requires WellFormed(g) && WellFormed(f)
    requires BeforeModeColon(g) == x + BeforeModeColon(f)
    ensures BeforeFeaturesColon(g) == x + BeforeFeaturesColon(f)
  {
    ColonOutsideClasses(g.features, WordOrSpace);
    ColonOutsideClasses(f.features, WordOrSpace);
    var a, b := BeforeModeColon(g), x + BeforeModeColon(f);
    assert a[..|a| - 5] == BeforeFeaturesColon(g) + [':'] + (" " + g.features);
    assert b[..|b| - 5] == (x + BeforeFeaturesColon(f)) + [':'] + (" " + f.features);
    SplitAtLastColon(BeforeFeaturesColon(g), " " + g.features, x + BeforeFeaturesColon(f), " " + f.features);
  }

  /** Once only the version is left, nothing can stand in front of the version tag. */
  lemma PeelVersion(g: Fields, x: string, f: Fields)
    requires WellFormed(g) && WellFormed(f)
    requires BeforeFeaturesColon(g) == x + BeforeFeaturesColon(f)
    ensures x == []
  {
    ColonOutsideClasses(g.major, Digit);
    ColonOutsideClasses(g.minor, Digit);
    ColonOutsideClasses(g.patch, Digit);
    ColonOutsideClasses(f.major, Digit);
    ColonOutsideClasses(f.minor, Digit);
    ColonOutsideClasses(f.patch, Digit);
    var c, d := BeforeFeaturesColon(g), x + BeforeFeaturesColon(f);
    assert c[..|c| - 9] == "Version" + [':'] + (" " + VersionOf(g));
    assert d[..|d| - 9] == (x + "Version") + [':'] + (" " + VersionOf(f));
    SplitAtLastColon("Version", " " + VersionOf(g), x + "Version", " " + VersionOf(f));
  }

  /** Anchoring at the start: no descriptor is another descriptor with text in front. */
  lemma NoTextBefore(g: Fields, x: string, f: Fields)
    requires WellFormed(g) && WellFormed(f)
    requires Render(g) == x + Render(f)
    ensures x == []
  {
    PeelMode(g, x, f);
    PeelFeatures(g, x, f);
    PeelVersion(g, x, f);
  }

  /** Index of the first occurrence of `c` in `w`, or `|w|` when there is none. */
  function FirstIndexOf(w: string, c: char): (i: nat)
    ensures i <= |w|
    ensures forall j :: 0 <= j < i ==> w[j] != c
    ensures i < |w| ==> w[i] == c
  {
    if w == [] || w[0] == c then 0 else 1 + FirstIndexOf(w[1..], c)
  }

  /** In `u + [c] + v` with `c` absent from `u`, the first `c` is the one after `u`. */
  lemma {:induction false} FirstIndexAt(u: string, c: char, v: string)
    requires c !in u
    ensures FirstIndexOf(u + [c] + v, c) == |u|
  {
    var w := u + [c] + v;
    if u == [] {
      assert w[0] == c;
    } else {
      assert w[0] == u[0];
      assert w[1..] == u[1..] + [c] + v;
      FirstIndexAt(u[1..], c, v);
    }
  }

  /** Splitting a string at its first colon is unique. */
  lemma SplitAtFirstColon(u: string, v: string, u': string, v': string)
    requires ':' !in u && ':' !in u'
    requires u + [':'] + v == u' + [':'] + v'
    ensures u == u' && v == v'
  {
    FirstIndexAt(u, ':', v);
    FirstIndexAt(u', ':', v');
    var w := u + [':'] + v;
    assert u == w[..|u|] && u' == w[..|u'|];
    assert v == w[|u| + 1..] && v' == w[|u'| + 1..];
  }

  /** The segments of a descriptor between its three colons. */
  lemma ColonSegments(f: Fields)
    requires WellFormed(f)
    ensures Render(f) == "Version" + [':'] + (" " + VersionOf(f) + " Features" + [':']
      + (" " + f.features + " Mode" + [':'] + (" " + f.mode)))
    ensures ':' !in " " + VersionOf(f) + " Features"
    ensures ':' !in " " + f.features + " Mode"
  {
    ColonOutsideClasses(f.major, Digit);
    ColonOutsideClasses(f.minor, Digit);
    ColonOutsideClasses(f.patch, Digit);
    ColonOutsideClasses(f.features, WordOrSpace);
  }

  /** Anchoring at the end: a descriptor followed by more text is a descriptor only when
      that text lengthens the mode word. */
  lemma TextAfterExtendsMode(g: Fields, f: Fields, y: string)
    requires WellFormed(g) && WellFormed(f)
    requires Render(g) == Render(f) + y
    ensures g.mode == f.mode + y
    ensures All(y, Word)
  {
    ColonSegments(g);
    ColonSegments(f);
    var v, v' := " " + VersionOf(g) + " Features", " " + VersionOf(f) + " Features";
    var e, e' := " " + g.features + " Mode", " " + f.features + " Mode";
    var m, m' := " " + g.mode, " " + f.mode;
    assert Render(f) + y == "Version" + [':'] + (v' + [':'] + (e' + [':'] + (m' + y)));
    SplitAtFirstColon("Version", v + [':'] + (e + [':'] + m), "Version", v' + [':'] + (e' + [':'] + (m' + y)));
    SplitAtFirstColon(v, e + [':'] + m, v', e' + [':'] + (m' + y));
    SplitAtFirstColon(e, m, e', m' + y);
    assert g.mode == m[1..] && f.mode + y == (m' + y)[1..];
    assert y == g.mode[|f.mode|..];
  }

  /** Anchoring at the end: text after the mode word that does not start with a word
      character is never part of a descriptor. */
  lemma NoTextAfter(g: Fields, f: Fields, y: string)
    requires WellFormed(g) && WellFormed(f)
    requires y != [] && !IsWord(y[0])
    ensures Render(g) != Render(f) + y
  {
    if Render(g) == Render(f) + y {
      TextAfterExtendsMode(g, f, y);
    }
  }

  /** Word characters after a descriptor lengthen its mode word: `(\w+)$` takes them in,
      so the longer text is again a descriptor, with the same version and features. */
  lemma ModeExtended(f: Fields, y: string)
    requires WellFormed(f) && All(y, Word)
    ensures WellFormed(f.(mode := f.mode + y))
    ensures Render(f.(mode := f.mode + y)) == Render(f) + y
  {
    var m := f.mode + y;
    forall i | 0 <= i < |m|
      ensures In(Word, m[i])
    {
      if i >= |f.mode| {
        assert m[i] == y[i - |f.mode|];
      }
    }
  }

  /** Anchoring at the end, both directions: a descriptor followed by `y` is again a
      descriptor exactly when `y` is made of word characters. */
  lemma SuffixAccepted(s: string, y: string)
    requires Matches(s)
    ensures Matches(s + y) <==> All(y, Word)
  {
    var f :| WellFormed(f) && Render(f) == s;
    if Matches(s + y) {
      var g :| WellFormed(g) && Render(g) == s + y;
      TextAfterExtendsMode(g, f, y);
    }
    if All(y, Word) {
      ModeExtended(f, y);
      var g := f.(mode := f.mode + y);
      assert WellFormed(g) && Render(g) == s + y;
    }
  }

  /** The match is anchored at the start: text in front of a descriptor is rejected. */
  lemma PrefixRejected(x: string, s: string)
    requires Matches(s) && x != []
    ensures !Matches(x + s)
  {
    var f :| WellFormed(f) && Render(f) == s;
    forall g | WellFormed(g)
      ensures Render(g) != x + s
    {
      if Render(g) == x + s {
        NoTextBefore(g, x, f);
      }
    }
  }

  /** The match is anchored at the end: text after a descriptor that does not continue
      the mode word (a space, a newline, punctuation) is rejected. */
  lemma SuffixRejected(s: string, y: string)
    requires Matches(s) && y != [] && !IsWord(y[0])
    ensures !Matches(s + y)
  {
    var f :| WellFormed(f) && Render(f) == s;
    forall g | WellFormed(g)
      ensures Render(g) != s + y
    {
      NoTextAfter(g, f, y);
    }
  }
}
