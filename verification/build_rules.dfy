/** The editor window's build-side rules: which build and job names the
    buttons accept, and how a build adds the UNITY_GAME_SIMULATION scripting
    define for its duration. */
module BuildRules {
  import Text

  predicate IsAsciiLetterOrDigit(c: char)
  {
    ('a' <= c <= 'z') || ('A' <= c <= 'Z') || ('0' <= c <= '9')
  }

  /** The class `[a-zA-Z0-9]` of the build-name pattern. */
  predicate BuildNameChar(c: char)
  {
    IsAsciiLetterOrDigit(c)
  }

  /** The class `[a-zA-Z0-9\-]` of the job-name pattern. */
  predicate JobNameChar(c: char)
  {
    IsAsciiLetterOrDigit(c) || c == '-'
  }

  /** An anchored match of length `k`: the first `k` characters are in the
      class and what follows is nothing or a single final '\n'. */
  predicate MatchLength(s: string, allowed: char -> bool, lo: nat, hi: nat, k: nat)
  {
    && lo <= k <= hi && k <= |s|
    && (forall i :: 0 <= i < k ==> allowed(s[i]))
    && (k == |s| || (k == |s| - 1 && s[k] == '\n'))
  }

  /** The string without one final line break, if it ends in one. */
  function WithoutFinalNewline(s: string): (r: string)
    ensures |r| <= |s| && r == s[..|r|]
    ensures |r| == |s| || (|r| == |s| - 1 && s[|r|] == '\n')
  {
    if |s| > 0 && s[|s| - 1] == '\n' then s[..|s| - 1] else s
  }

  /** An anchored match can only have one length: the whole string less a
      final line break, since the class excludes '\n'. */
  lemma MatchLengthUnique(s: string, allowed: char -> bool, lo: nat, hi: nat, k: nat)
    requires !allowed('\n') && MatchLength(s, allowed, lo, hi, k)
    ensures k == |WithoutFinalNewline(s)|
  {
    if k == |s| && |s| > 0 {
      assert allowed(s[|s| - 1]);
    }
  }

  /** Regex.IsMatch for `^[class]{lo,hi}$` in .NET, where `$` without the
      Multiline option matches at the very end or just before a final '\n'.
      The body strips one final line break and checks the rest. */
  function MatchesAnchored(s: string, allowed: char -> bool, lo: nat, hi: nat): (b: bool)
    requires !allowed('\n')
    ensures b <==> exists k: nat :: MatchLength(s, allowed, lo, hi, k)
  {
    var body := WithoutFinalNewline(s);
    assert forall k: nat :: MatchLength(s, allowed, lo, hi, k) ==> k == |body| by {
      forall k: nat | MatchLength(s, allowed, lo, hi, k) ensures k == |body| {
        MatchLengthUnique(s, allowed, lo, hi, k);
      }
    }
    var b := lo <= |body| <= hi && forall i :: 0 <= i < |body| ==> allowed(body[i]);
    assert b ==> MatchLength(s, allowed, lo, hi, |body|);
    b
  }

  /** A build name is accepted when non-empty and matching `^[a-zA-Z0-9]{2,63}$`. */
  function BuildNameValid(name: string): bool
  {
    |name| > 0 && MatchesAnchored(name, BuildNameChar, 2, 63)
  }

  /** A job name is accepted when non-empty and matching `^[a-zA-Z0-9\-]{2,100}$`. */
  function JobNameValid(name: string): bool
  {
    |name| > 0 && MatchesAnchored(name, JobNameChar, 2, 100)
  }

  /** Without line breaks, a build name is valid exactly when it has 2 to 63
      characters, all ASCII letters or digits. */
  lemma BuildNameRule(name: string)
    requires '\n' !in name
    ensures BuildNameValid(name) <==> 2 <= |name| <= 63 && forall i :: 0 <= i < |name| ==> IsAsciiLetterOrDigit(name[i])
  {
    if BuildNameValid(name) {
      var k: nat :| MatchLength(name, BuildNameChar, 2, 63, k);
      assert k == |name|;
    }
    if 2 <= |name| <= 63 && forall i :: 0 <= i < |name| ==> IsAsciiLetterOrDigit(name[i]) {
      var k := |name|;
      assert MatchLength(name, BuildNameChar, 2, 63, k);
    }
  }

  /** Without line breaks, a job name is valid exactly when it has 2 to 100
      characters, all ASCII letters, digits or '-'. */
  lemma JobNameRule(name: string)
    requires '\n' !in name
    ensures JobNameValid(name) <==> 2 <= |name| <= 100 && forall i :: 0 <= i < |name| ==> JobNameChar(name[i])
  {
    if JobNameValid(name) {
      var k: nat :| MatchLength(name, JobNameChar, 2, 100, k);
      assert k == |name|;
    }
    if 2 <= |name| <= 100 && forall i :: 0 <= i < |name| ==> JobNameChar(name[i]) {
      var k := |name|;
      assert MatchLength(name, JobNameChar, 2, 100, k);
    }
  }

  /** .NET's `$` lets one final line break through. */
  lemma TrailingNewlineAccepted()
    ensures BuildNameValid("ab\n")
    ensures JobNameValid("run-1\n")
  {
    assert MatchLength("ab\n", BuildNameChar, 2, 63, 2);
    assert MatchLength("run-1\n", JobNameChar, 2, 100, 5);
  }

  const DEFINE: string := "UNITY_GAME_SIMULATION"

  /** BuildProject's test as written: the define string ends with
      ";UNITY_GAME_SIMULATION", contains "UNITY_GAME_SIMULATION;" anywhere,
      or is exactly "UNITY_GAME_SIMULATION". */
  function AlreadyContainsAsWritten(defines: string): bool
  {
    || Text.EndsWith(defines, ";" + DEFINE)
    || Text.Contains(defines, DEFINE + ";")
    || defines == DEFINE
  }

  /** The defines a build runs with under the test as written: unchanged
      when the test passes, otherwise the define put in front. */
  function DuringBuildAsWritten(defines: string): (r: string)
    ensures AlreadyContainsAsWritten(defines) ==> r == defines
    ensures !AlreadyContainsAsWritten(defines) && |defines| == 0 ==> Text.Split(r, ';') == [DEFINE]
    ensures !AlreadyContainsAsWritten(defines) && |defines| > 0 ==> Text.Split(r, ';') == [DEFINE] + Text.Split(defines, ';')
  {
    if AlreadyContainsAsWritten(defines) then defines
    else if |defines| == 0 then
      Text.SplitNoSep(DEFINE, ';');
      DEFINE
    else
      Text.SplitHead(DEFINE, ';', defines);
      assert DEFINE + ";" + defines == DEFINE + [';'] + defines;
      DEFINE + ";" + defines
  }

  /** A symbol that merely ends in the define's name, followed by further
      symbols, passes the test as written although the define is not one of
      the symbols, so the build runs without it. */
  lemma {:induction false} AsWrittenMissesDefine(prefix: string, rest: string)
    requires |prefix| > 0 && ';' !in prefix && ';' !in rest && rest != DEFINE
    ensures var defines := prefix + DEFINE + ";" + rest;
      && AlreadyContainsAsWritten(defines)
      && DuringBuildAsWritten(defines) == defines
      && DEFINE !in Text.Split(DuringBuildAsWritten(defines), ';')
  {
    var defines := prefix + DEFINE + ";" + rest;
    var t := DEFINE + ";";
    assert defines[|prefix|..|prefix| + |t|] == t;
    assert Text.OccursAt(defines, t, |prefix|);
    assert ';' !in prefix + DEFINE;
    assert defines == (prefix + DEFINE) + [';'] + rest;
    Text.SplitHead(prefix + DEFINE, ';', rest);
    Text.SplitNoSep(rest, ';');
    assert Text.Split(defines, ';') == [prefix + DEFINE, rest];
  }

  /** The concrete case: "MY_UNITY_GAME_SIMULATION;X". */
  lemma AsWrittenMissesDefineExample()
    ensures var d := "MY_" + DEFINE + ";X";
      && AlreadyContainsAsWritten(d) && !AlreadyDefined(DuringBuildAsWritten(d))
      && BuildDefines(d).0 == d && BuildDefinesIntended(d).0 != d
  {
    var d := "MY_" + DEFINE + ";X";
    AsWrittenMissesDefine("MY_", "X");
    assert "MY_" + DEFINE + ";" + "X" == d;
    assert |Text.Split(BuildDefinesIntended(d).0, ';')| == 1 + |Text.Split(d, ';')|;
  }

  /** The test as intended: the define is one of the ';'-separated symbols. */
  function AlreadyDefined(defines: string): bool
  {
    DEFINE in Text.Split(defines, ';')
  }

  /** The defines a build runs with: unchanged when the define is already
      one of the symbols, otherwise the define put in front. */
  function DuringBuild(defines: string): (r: string)
    ensures DEFINE in Text.Split(r, ';')
    ensures AlreadyDefined(defines) ==> r == defines
    ensures !AlreadyDefined(defines) && |defines| == 0 ==> Text.Split(r, ';') == [DEFINE]
    ensures !AlreadyDefined(defines) && |defines| > 0 ==> Text.Split(r, ';') == [DEFINE] + Text.Split(defines, ';')
  {
    if AlreadyDefined(defines) then defines
    else if |defines| == 0 then
      Text.SplitNoSep(DEFINE, ';');
      DEFINE
    else
      Text.SplitHead(DEFINE, ';', defines);
      DEFINE + [';'] + defines
  }

  /** The define handling of BuildProject as written: the defines during
      the build and afterwards. The original string is put back only when
      the test as written made the build change it. */
  function BuildDefines(defines: string): (r: (string, string))
    ensures r.0 == DuringBuildAsWritten(defines)
    ensures AlreadyContainsAsWritten(defines) ==> r.0 == defines
    ensures !AlreadyContainsAsWritten(defines) ==> DEFINE in Text.Split(r.0, ';')
    ensures r.1 == defines
  {
    var during := DuringBuildAsWritten(defines);
    (during, if AlreadyContainsAsWritten(defines) then during else defines)
  }

  /** The define handling as intended: the build always runs with the
      define among its symbols, and the defines are restored afterwards. */
  function BuildDefinesIntended(defines: string): (r: (string, string))
    ensures r.0 == DuringBuild(defines)
    ensures DEFINE in Text.Split(r.0, ';')
    ensures r.1 == defines
  {
    var during := DuringBuild(defines);
    (during, if AlreadyDefined(defines) then during else defines)
  }

  /** Where the list holds no ';', the build as written and as intended agree. */
  lemma BuildDefinesAgreeWithoutSeparator(defines: string)
    requires ';' !in defines
    ensures BuildDefines(defines) == BuildDefinesIntended(defines)
  {
    AsWrittenAgreesWithoutSeparator(defines);
  }

  /** Where the list holds no ';', the test as written and the intended one agree. */
  lemma AsWrittenAgreesWithoutSeparator(defines: string)
    requires ';' !in defines
    ensures AlreadyContainsAsWritten(defines) == AlreadyDefined(defines)
  {
    Text.SplitNoSep(defines, ';');
    var s := ";" + DEFINE;
    if |s| <= |defines| {
      assert defines[|defines| - |s|] in defines;
      assert defines[|defines| - |s|..][0] != s[0];
    }
    var t := DEFINE + ";";
    forall i | 0 <= i <= |defines| - |t| ensures !Text.OccursAt(defines, t, i) {
      assert defines[i + |DEFINE|] in defines;
      assert defines[i..i + |t|][|DEFINE|] != t[|DEFINE|];
    }
  }
}
