/** A hand-written scanner for the descriptor grammar, in place of Go's regular-expression
    engine, proved to accept exactly the strings the grammar describes and to return the
    one decomposition they have. */
module InfoParser {
  import opened Errors
  import opened CharClasses
  import opened InfoGrammar

  /** A version number `\d+` followed by the literal `sep`: the digits and the text
      after `sep`. */
  function Component(s: string, sep: string): Option<(string, string)>
  {
    var (digits, rest) := Split(s, Digit);
    if digits == [] || !(sep <= rest) then None
    else Some((digits, rest[|sep|..]))
  }

  lemma ComponentSound(s: string, sep: string)
    ensures Component(s, sep).Some? ==>
      var (d, r) := Component(s, sep).value;
      |d| > 0 && All(d, Digit) && s == d + (sep + r)
  {
    var (digits, rest) := Split(s, Digit);
    if Component(s, sep).Some? {
      assert rest == sep + rest[|sep|..];
    }
  }

  lemma ComponentOf(d: string, sep: string, r: string)
    requires |d| > 0 && All(d, Digit)
    requires sep != [] && !IsDigit(sep[0])
    ensures Component(d + (sep + r), sep) == Some((d, r))
  {
    SplitOf(d, sep + r, Digit);
    assert (sep + r)[..|sep|] == sep && (sep + r)[|sep|..] == r;
  }

  /** `ModeTag` straddles the end of the features run: the longest `[\w\s]` run takes the
      features and " Mode" and stops at the colon. */
  const ModeLead := " Mode"
  const ModeRest := ": "

  /** The text after `FeaturesTag`: the features, the mode tag and a mode word that
      reaches the end of the text. */
  function FeaturesAndMode(t: string): Option<(string, string)>
  {
    var (run, rest) := Split(t, WordOrSpace);
    if |run| < |ModeLead| || run[|run| - |ModeLead|..] != ModeLead || !(ModeRest <= rest) then None
    else
      var mode := rest[|ModeRest|..];
      if mode == [] || !All(mode, Word) then None
      else Some((run[..|run| - |ModeLead|], mode))
  }

  lemma FeaturesAndModeSound(t: string)
    ensures FeaturesAndMode(t).Some? ==>
      var (features, mode) := FeaturesAndMode(t).value;
      All(features, WordOrSpace) && |mode| > 0 && All(mode, Word) && t == features + (ModeTag + mode)
  {
    if FeaturesAndMode(t).None? {
      return;
    }
    var (run, rest) := Split(t, WordOrSpace);
    var features := run[..|run| - |ModeLead|];
    var mode := rest[|ModeRest|..];
    assert All(features, WordOrSpace) by {
      forall i | 0 <= i < |features|
        ensures In(WordOrSpace, features[i])
      {
        assert features[i] == run[i];
      }
    }
    assert run == features + ModeLead by {
      assert run == run[..|run| - |ModeLead|] + run[|run| - |ModeLead|..];
    }
    assert rest == ModeRest + mode by {
      TagThenRest(rest, ModeRest);
    }
    Regroup(features, mode);
  }

  /** The pieces the features scan cuts a text into, put back together. */
  lemma Regroup(features: string, mode: string)
    ensures (features + ModeLead) + (ModeRest + mode) == features + (ModeTag + mode)
  {
    assert ModeLead + (ModeRest + mode) == ModeTag + mode;
  }

  lemma FeaturesAndModeOf(features: string, mode: string)
    requires All(features, WordOrSpace) && |mode| > 0 && All(mode, Word)
    ensures FeaturesAndMode(features + (ModeTag + mode)) == Some((features, mode))
  {
    var run := features + ModeLead;
    var rest := ModeRest + mode;
    assert features + (ModeTag + mode) == run + rest;
    assert All(run, WordOrSpace) by {
      forall i | 0 <= i < |run|
        ensures In(WordOrSpace, run[i])
      {
        if i < |features| {
          assert run[i] == features[i];
        }
      }
    }
    SplitOf(run, rest, WordOrSpace);
    assert run[|run| - |ModeLead|..] == ModeLead && run[..|run| - |ModeLead|] == features;
    assert rest[..|ModeRest|] == ModeRest && rest[|ModeRest|..] == mode;
  }

  /** The text after `VersionTag`: three version numbers, the first two ended by a dot
      and the last by `FeaturesTag`, and the text after that tag. */
  function VersionNumbers(t: string): Option<(string, string, string, string)>
  {
    match Component(t, ".")
    case None => None
    case Some((major, r1)) =>
      match Component(r1, ".")
      case None => None
      case Some((minor, r2)) =>
        match Component(r2, FeaturesTag)
        case None => None
        case Some((patch, r3)) => Some((major, minor, patch, r3))
  }

  lemma VersionNumbersSound(t: string)
    ensures VersionNumbers(t).Some? ==>
      var (major, minor, patch, rest) := VersionNumbers(t).value;
      && |major| > 0 && All(major, Digit)
      && |minor| > 0 && All(minor, Digit)
      && |patch| > 0 && All(patch, Digit)
      && t == major + ("." + (minor + ("." + (patch + (FeaturesTag + rest)))))
  {
    if VersionNumbers(t).None? {
      return;
    }
    ComponentSound(t, ".");
    var (major, r1) := Component(t, ".").value;
    ComponentSound(r1, ".");
    var (minor, r2) := Component(r1, ".").value;
    ComponentSound(r2, FeaturesTag);
  }

  lemma VersionNumbersOf(major: string, minor: string, patch: string, rest: string)
    requires |major| > 0 && All(major, Digit)
    requires |minor| > 0 && All(minor, Digit)
    requires |patch| > 0 && All(patch, Digit)
    ensures VersionNumbers(major + ("." + (minor + ("." + (patch + (FeaturesTag + rest))))))
      == Some((major, minor, patch, rest))
  {
    var r2 := patch + (FeaturesTag + rest);
    var r1 := minor + ("." + r2);
    ComponentOf(major, ".", r1);
    ComponentOf(minor, ".", r2);
    ComponentOf(patch, FeaturesTag, rest);
  }

  /** The text after `VersionTag`: the version numbers up to the features tag, then
      the features and the mode word. */
  function ParseBody(t: string): Option<Fields>
  {
    match VersionNumbers(t)
    case None => None
    case Some((major, minor, patch, rest)) =>
      match FeaturesAndMode(rest)
      case None => None
      case Some((features, mode)) => Some(Fields(major, minor, patch, features, mode))
  }

  /** Text that starts with a tag is the tag followed by the rest. */
  lemma TagThenRest(s: string, tag: string)
    requires tag <= s
    ensures tag + s[|tag|..] == s
  {
    assert s == s[..|tag|] + s[|tag|..];
  }

  /** Scans `s` from left to right: the version tag, then the body. */
  function Parse(s: string): Option<Fields>
  {
    if !(VersionTag <= s) then None
    else ParseBody(s[|VersionTag|..])
  }

  /** A rendering, grouped the way the scanner takes it apart. */
  lemma RenderGrouped(f: Fields)
    ensures Render(f) == VersionTag + Body(f)
  {
  }

  lemma RenderOfBody(f: Fields, t: string)
    requires Body(f) == t
    ensures Render(f) == VersionTag + t
  {
    RenderGrouped(f);
  }

  /** The text a rendering holds after `VersionTag`. */
  function Body(f: Fields): string
  {
    f.major + ("." + (f.minor + ("." + (f.patch + (FeaturesTag + (f.features + (ModeTag + f.mode)))))))
  }

  lemma ParseBodySound(t: string)
    ensures ParseBody(t).Some? ==> WellFormed(ParseBody(t).value) && Body(ParseBody(t).value) == t
  {
    if ParseBody(t).None? {
      return;
    }
    VersionNumbersSound(t);
    var (major, minor, patch, rest) := VersionNumbers(t).value;
    FeaturesAndModeSound(rest);
  }

  /** Soundness: whatever the scanner returns is well formed and renders back to the
      scanned text. */
  lemma ParseSound(s: string)
    ensures Parse(s).Some? ==> WellFormed(Parse(s).value) && Render(Parse(s).value) == s
  {
    if Parse(s).None? {
      return;
    }
    var s0 := s[|VersionTag|..];
    ParseBodySound(s0);
    RenderOfBody(ParseBody(s0).value, s0);
    TagThenRest(s, VersionTag);
  }

  /** Completeness, as a round trip: the scanner recovers the fields of every
      well-formed descriptor. */
  lemma ParseRender(f: Fields)
    requires WellFormed(f)
    ensures Parse(Render(f)) == Some(f)
  {
    var rest := f.features + (ModeTag + f.mode);
    var s0 := Body(f);
    var s := Render(f);
    assert s[|VersionTag|..] == s0 && VersionTag <= s by {
      RenderGrouped(f);
    }
    VersionNumbersOf(f.major, f.minor, f.patch, rest);
    FeaturesAndModeOf(f.features, f.mode);
  }

  /** The scanner accepts exactly the strings the anchored grammar matches. */
  lemma ParseAccepts(s: string)
    ensures Parse(s).Some? <==> Matches(s)
  {
    if Parse(s).Some? {
      ParseSound(s);
    }
    if Matches(s) {
      var f :| WellFormed(f) && Render(f) == s;
      ParseRender(f);
    }
  }

  /** Every decomposition of `s` is the one the scanner returns. */
  lemma ParseFindsEveryDecomposition(s: string)
    ensures forall f :: WellFormed(f) && Render(f) == s ==> Parse(s) == Some(f)
  {
    forall f | WellFormed(f) && Render(f) == s
      ensures Parse(s) == Some(f)
    {
      ParseRender(f);
    }
  }

  /** The decomposition is unique: two well-formed field sets that render to the same
      text are equal, so leftmost-first matching cannot choose between splits. */
  lemma DecompositionUnique(f: Fields, g: Fields)
    requires WellFormed(f) && WellFormed(g)
    requires Render(f) == Render(g)
    ensures f == g
  {
    ParseRender(f);
    ParseRender(g);
  }
}
