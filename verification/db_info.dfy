/** `DbInfo`, the descriptor string a compiled Hyperscan database reports about itself,
    and its two accessors. Both run the anchored descriptor grammar over the string and
    fail with an error wrapping `ErrInvalid` when it does not match; `Version` then
    returns the version group and `Mode` hands the mode word to `ParseModeFlag`. */
module DbInfos {
  import opened Errors
  import opened CharClasses
  import opened InfoGrammar
  import opened InfoParser

  /** A match yields the whole text and three groups. */
  const InfoMatches := 4

  /** The error both accessors return on a descriptor outside the grammar. */
  const InfoInvalid: Error := Wrapped("database info, ", ErrInvalid)

  /** Go's `ModeFlag` is an unsigned integer; only the value 0 is produced here. */
  type ModeFlag = nat

  /** `type DbInfo string`, with its three methods. */
  datatype DbInfo = DbInfo(text: string) {

    /** `String()` hands back the descriptor's text unchanged. */
    function String(): (r: string)
      ensures DbInfo(r) == this
    {
      text
    }

    /** `Version()`. */
    function Version(): (r: Returns<string>)
      ensures !Matches(text) ==> r == Returns("", Some(InfoInvalid))
      ensures Matches(text) ==>
        && r.err == None
        && IsDottedTriple(r.value)
        && VersionTag + r.value <= text
      ensures forall f :: WellFormed(f) && Render(f) == text ==> r == Returns(VersionOf(f), None)
      ensures r.err.Some? ==> Is(r.err.value, ErrInvalid)
    {
      var matched := FindStringSubmatch(text);
      if |matched| != InfoMatches then Returns("", Some(InfoInvalid))
      else
        MatchedVersion(text);
        Returns(matched[1], None)
    }

    /** `Mode()`, with `ParseModeFlag` (not part of this model) passed in as
        `parseModeFlag`. */
    function Mode(parseModeFlag: string -> Returns<ModeFlag>): (r: Returns<ModeFlag>)
      ensures !Matches(text) ==> r == Returns(0, Some(InfoInvalid))
      ensures forall f :: WellFormed(f) && Render(f) == text ==> r == parseModeFlag(f.mode)
    {
      var matched := FindStringSubmatch(text);
      if |matched| != InfoMatches then Returns(0, Some(InfoInvalid))
      else parseModeFlag(matched[3])
    }
  }

  /** `regexInfo.FindStringSubmatch`: empty when the grammar does not match, otherwise
      the whole text followed by the version, features and mode groups of its one
      decomposition (an absent features group reads as ""). */
  function FindStringSubmatch(s: string): (m: seq<string>)
    ensures |m| == InfoMatches <==> Matches(s)
    ensures !Matches(s) ==> m == []
    ensures forall f :: WellFormed(f) && Render(f) == s ==> m == [s, VersionOf(f), f.features, f.mode]
  {
    ParseAccepts(s);
    ParseFindsEveryDecomposition(s);
    match Parse(s)
    case None => []
    case Some(f) => [s, VersionOf(f), f.features, f.mode]
  }

  /** The version group of a match is a dotted triple that directly follows the
      version tag. */
  lemma MatchedVersion(s: string)
    requires Matches(s)
    ensures IsDottedTriple(FindStringSubmatch(s)[1])
    ensures VersionTag + FindStringSubmatch(s)[1] <= s
  {
    ParseAccepts(s);
    ParseSound(s);
    var f := Parse(s).value;
    VersionGroup(f);
  }

  /** Both accessors run the same match and the same length test, so the grammar step
      succeeds for one exactly when it succeeds for the other. */
  lemma AccessorsAgree(info: DbInfo, parseModeFlag: string -> Returns<ModeFlag>)
    ensures info.Version().err.None? <==> Matches(info.text)
    ensures info.Version().err.Some? ==> info.Mode(parseModeFlag) == Returns(0, Some(InfoInvalid))
    ensures info.Version().err.None? ==> info.Mode(parseModeFlag) == parseModeFlag(FindStringSubmatch(info.text)[3])
  {
  }

  /** The features text never affects what the accessors return. */
  lemma FeaturesDoNotMatter(f: Fields, features: string, parseModeFlag: string -> Returns<ModeFlag>)
    requires WellFormed(f) && All(features, WordOrSpace)
    ensures DbInfo(Render(f)).Version() == DbInfo(Render(f.(features := features))).Version()
    ensures DbInfo(Render(f)).Mode(parseModeFlag) == DbInfo(Render(f.(features := features))).Mode(parseModeFlag)
  {
  }

  /** On a well-formed descriptor, `Version` returns the version group with no error
      and `Mode` returns whatever `ParseModeFlag` makes of the mode word. */
  lemma AccessorsOnDescriptor(f: Fields, parseModeFlag: string -> Returns<ModeFlag>)
    requires WellFormed(f)
    ensures DbInfo(Render(f)).Version() == Returns(VersionOf(f), None)
    ensures DbInfo(Render(f)).Mode(parseModeFlag) == parseModeFlag(f.mode)
  {
  }

  /** The descriptor with no features, assembled from its pieces. */
  lemma EmptyFeaturesText()
    ensures VersionTag + ("1.2.3" + (FeaturesTag + ("" + (ModeTag + "BLOCK"))))
      == "Version: 1.2.3 Features:  Mode: BLOCK"
  {
  }

  /** The features group is optional: with no features the two spaces around the empty
      group remain, and the descriptor is accepted. */
  lemma EmptyFeaturesAccepted(parseModeFlag: string -> Returns<ModeFlag>)
    ensures DbInfo("Version: 1.2.3 Features:  Mode: BLOCK").Version() == Returns("1.2.3", None)
    ensures DbInfo("Version: 1.2.3 Features:  Mode: BLOCK").Mode(parseModeFlag) == parseModeFlag("BLOCK")
  {
    var f := Fields("1", "2", "3", "", "BLOCK");
    assert VersionOf(f) == "1.2.3";
    EmptyFeaturesText();
    assert Render(f) == "Version: 1.2.3 Features:  Mode: BLOCK";
    AccessorsOnDescriptor(f, parseModeFlag);
  }

  /** Text that is no descriptor at all makes both accessors fail with `ErrInvalid`. */
  lemma GarbageRejected(parseModeFlag: string -> Returns<ModeFlag>)
    ensures DbInfo("garbage").Version() == Returns("", Some(InfoInvalid))
    ensures DbInfo("garbage").Mode(parseModeFlag) == Returns(0, Some(InfoInvalid))
    ensures Is(InfoInvalid, ErrInvalid)
  {
    ParseAccepts("garbage");
  }

  /** Anchoring at the start: anything in front of a descriptor makes both accessors fail. */
  lemma AnchoredAtStart(x: string, s: string, parseModeFlag: string -> Returns<ModeFlag>)
    requires Matches(s) && x != []
    ensures DbInfo(x + s).Version() == Returns("", Some(InfoInvalid))
    ensures DbInfo(x + s).Mode(parseModeFlag) == Returns(0, Some(InfoInvalid))
  {
    PrefixRejected(x, s);
  }

  /** Anchoring at the end: text after the mode word that does not continue it (a
      newline included) makes both accessors fail. */
  lemma AnchoredAtEnd(s: string, y: string, parseModeFlag: string -> Returns<ModeFlag>)
    requires Matches(s) && y != [] && !IsWord(y[0])
    ensures DbInfo(s + y).Version() == Returns("", Some(InfoInvalid))
    ensures DbInfo(s + y).Mode(parseModeFlag) == Returns(0, Some(InfoInvalid))
  {
    SuffixRejected(s, y);
  }

  /** The converse: word characters after the mode word are taken into it, so both
      accessors still succeed on the grammar and `Mode` consults `ParseModeFlag` on the
      lengthened word. */
  lemma TrailingWordAccepted(f: Fields, y: string, parseModeFlag: string -> Returns<ModeFlag>)
    requires WellFormed(f) && All(y, Word)
    ensures DbInfo(Render(f) + y).Version() == Returns(VersionOf(f), None)
    ensures DbInfo(Render(f) + y).Mode(parseModeFlag) == parseModeFlag(f.mode + y)
  {
    ModeExtended(f, y);
    AccessorsOnDescriptor(f.(mode := f.mode + y), parseModeFlag);
  }

  /** Anchoring at the end, both directions: after text is appended to a descriptor,
      `Version` still succeeds exactly when that text is made of word characters, and
      otherwise both accessors fail with the invalid-descriptor error. */
  lemma AnchoredAtEndExactly(s: string, y: string, parseModeFlag: string -> Returns<ModeFlag>)
    requires Matches(s)
    ensures DbInfo(s + y).Version().err.None? <==> All(y, Word)
    ensures !All(y, Word) ==>
      && DbInfo(s + y).Version() == Returns("", Some(InfoInvalid))
      && DbInfo(s + y).Mode(parseModeFlag) == Returns(0, Some(InfoInvalid))
  {
    SuffixAccepted(s, y);
  }
}
