/** The dependency providers of `src/executor/deps`: how each package manager's
    provider recognises the package named by a step's uninstall command, and how
    it reports the installed packages that depend on it. */
module Providers {
  import opened Wrappers
  import opened Strings
  import opened Registry

  /** `PackageInfo`: the package name, and for brew the `meta.isCask` flag
      (`None` where the provider attaches no `meta`). */
  datatype PackageInfo = PackageInfo(name: string, cask: Option<bool>)

  // ---------------------------------------------------------------------------
  // Token scanning shared by every uninstall parser

  /** `command.split("&&")[0].trim().split(/\s+/).filter(Boolean)`. */
  function SegmentTokens(command: string): (ts: seq<string>)
    ensures forall k :: 0 <= k < |ts| ==> IsToken(ts[k])
  {
    Tokens(Trim(FirstSegment(command, "&&")))
  }

  /** `token.startsWith("-")`. */
  predicate IsFlag(t: string) {
    |t| > 0 && t[0] == '-'
  }

  /** The first index at or after `from` holding one of `words`, or -1: both
      `tokens.indexOf(w, from)` and `tokens.findIndex((t, i) => i > from - 1 && t === w)`. */
  function FindToken(ts: seq<string>, words: set<string>, from: nat): (r: int)
    ensures r == -1 || (from <= r < |ts| && ts[r] in words)
    ensures forall j :: from <= j < |ts| && (r == -1 || j < r) ==> ts[j] !in words
    decreases |ts| - from
  {
    if from >= |ts| then -1
    else if ts[from] in words then from
    else FindToken(ts, words, from + 1)
  }

  /** The first index at or after `from` holding a token that is not a flag, or -1. */
  function FirstOperand(ts: seq<string>, from: nat): (r: int)
    ensures r == -1 || (from <= r < |ts| && !IsFlag(ts[r]))
    ensures forall j :: from <= j < |ts| && (r == -1 || j < r) ==> IsFlag(ts[j])
    decreases |ts| - from
  {
    if from >= |ts| then -1
    else if !IsFlag(ts[from]) then from
    else FirstOperand(ts, from + 1)
  }

  /** The position just after a chain of keywords, each looked up as the first
      match after the previous one (the successive `indexOf`/`findIndex` calls of
      a parser), or -1 as soon as one of them is missing. */
  function AfterKeywords(ts: seq<string>, chain: seq<set<string>>, from: nat): (r: int)
    requires from <= |ts|
    ensures r == -1 || from <= r <= |ts|
    decreases |chain|
  {
    if chain == [] then from
    else
      var i := FindToken(ts, chain[0], from);
      if i < 0 then -1 else AfterKeywords(ts, chain[1..], i + 1)
  }

  /** One keyword lookup of a chain. */
  lemma ChainStep(ts: seq<string>, chain: seq<set<string>>, from: nat)
    requires from <= |ts| && chain != []
    ensures AfterKeywords(ts, chain, from) ==
      var i := FindToken(ts, chain[0], from);
      if i < 0 then -1 else AfterKeywords(ts, chain[1..], i + 1)
  {
  }

  /** Declarative reading of a parser: the keywords occur in order (not
      necessarily adjacent) and some non-flag token follows the last one. */
  predicate Recognises(ts: seq<string>, chain: seq<set<string>>, from: nat)
    decreases |chain|
  {
    if chain == [] then exists j :: from <= j < |ts| && !IsFlag(ts[j])
    else exists i :: from <= i < |ts| && ts[i] in chain[0] && Recognises(ts, chain[1..], i + 1)
  }

  /** The package-name token an uninstall command names under a keyword chain:
      the first non-flag token after the last keyword. */
  function Operand(command: string, chain: seq<set<string>>): (r: Option<string>)
    ensures r.Some? ==> r.value in SegmentTokens(command) && !IsFlag(r.value) && IsToken(r.value)
  {
    TokenOperand(SegmentTokens(command), chain)
  }

  /** `Operand` on a command already split into tokens. */
  function TokenOperand(ts: seq<string>, chain: seq<set<string>>): (r: Option<string>)
    ensures r.Some? ==> r.value in ts && !IsFlag(r.value)
  {
    var k := AfterKeywords(ts, chain, 0);
    if k < 0 then None
    else
      var j := FirstOperand(ts, k);
      if j < 0 then None else Some(ts[j])
  }

  lemma RecognisesLater(ts: seq<string>, chain: seq<set<string>>, a: nat, b: nat)
    requires b <= a && Recognises(ts, chain, a)
    ensures Recognises(ts, chain, b)
  {
    if chain == [] {
      var j :| a <= j < |ts| && !IsFlag(ts[j]);
      assert b <= j;
    } else {
      var i :| a <= i < |ts| && ts[i] in chain[0] && Recognises(ts, chain[1..], i + 1);
      assert b <= i;
    }
  }

  /** The successive first-match lookups succeed exactly when the keywords occur
      in order followed by a non-flag token: taking the first match of each
      keyword never loses a later one. */
  lemma {:induction false} KeywordsFoundIff(ts: seq<string>, chain: seq<set<string>>, from: nat)
    requires from <= |ts|
    ensures (AfterKeywords(ts, chain, from) >= 0 && FirstOperand(ts, AfterKeywords(ts, chain, from)) >= 0)
            <==> Recognises(ts, chain, from)
  {
    if AfterKeywords(ts, chain, from) >= 0 && FirstOperand(ts, AfterKeywords(ts, chain, from)) >= 0 {
      KeywordsFoundSound(ts, chain, from);
    }
    if Recognises(ts, chain, from) {
      KeywordsFoundComplete(ts, chain, from);
    }
  }

  /** What the lookups find is there. */
  lemma {:induction false} KeywordsFoundSound(ts: seq<string>, chain: seq<set<string>>, from: nat)
    requires from <= |ts|
    requires AfterKeywords(ts, chain, from) >= 0 && FirstOperand(ts, AfterKeywords(ts, chain, from)) >= 0
    ensures Recognises(ts, chain, from)
    decreases |chain|
  {
    if chain == [] {
      var j := FirstOperand(ts, from);
      assert from <= j < |ts| && !IsFlag(ts[j]);
    } else {
      var i := FindToken(ts, chain[0], from);
      KeywordsFoundSound(ts, chain[1..], i + 1);
      assert from <= i < |ts| && ts[i] in chain[0] && Recognises(ts, chain[1..], i + 1);
    }
  }

  /** What is there, the lookups find. */
  lemma {:induction false} KeywordsFoundComplete(ts: seq<string>, chain: seq<set<string>>, from: nat)
    requires from <= |ts| && Recognises(ts, chain, from)
    ensures AfterKeywords(ts, chain, from) >= 0 && FirstOperand(ts, AfterKeywords(ts, chain, from)) >= 0
    decreases |chain|
  {
    if chain == [] {
      var j :| from <= j < |ts| && !IsFlag(ts[j]);
      assert AfterKeywords(ts, chain, from) == from;
      assert FirstOperand(ts, from) != -1;
    } else {
      RecognisesFirstMatch(ts, chain, from);
      var i := FindToken(ts, chain[0], from);
      KeywordsFoundComplete(ts, chain[1..], i + 1);
      ChainStep(ts, chain, from);
    }
  }

  /** When the keywords occur in order, they also occur in order after the first
      match of the first keyword. */
  lemma RecognisesFirstMatch(ts: seq<string>, chain: seq<set<string>>, from: nat)
    requires from <= |ts| && chain != [] && Recognises(ts, chain, from)
    ensures FindToken(ts, chain[0], from) >= 0
    ensures Recognises(ts, chain[1..], FindToken(ts, chain[0], from) + 1)
  {
    var i' :| from <= i' < |ts| && ts[i'] in chain[0] && Recognises(ts, chain[1..], i' + 1);
    var i := FindToken(ts, chain[0], from);
    assert i != -1 && i <= i';
    RecognisesLater(ts, chain[1..], i' + 1, i + 1);
  }

  /** An uninstall command names a package exactly when its first `&&` segment
      holds the keywords in order followed by a non-flag token. */
  lemma OperandFound(command: string, chain: seq<set<string>>)
    ensures Operand(command, chain).Some? <==> Recognises(SegmentTokens(command), chain, 0)
  {
    var ts := SegmentTokens(command);
    KeywordsFoundIff(ts, chain, 0);
    var k := AfterKeywords(ts, chain, 0);
    assert Operand(command, chain).Some? <==> k >= 0 && FirstOperand(ts, k) >= 0;
  }

  /** Only the text before the first `&&` matters. */
  lemma OnlyFirstSegment(a: string, b: string, chain: seq<set<string>>)
    requires '&' !in a
    ensures SegmentTokens(a + "&&" + b) == SegmentTokens(a)
    ensures Operand(a + "&&" + b, chain) == Operand(a, chain)
  {
    FirstSegmentChained(a, b);
    FirstSegmentWhole(a, "&&");
  }

  /** A command written as single-space separated words without `&` has those words
      as its tokens. */
  lemma SegmentOfWords(words: seq<string>)
    requires |words| >= 1
    requires forall k :: 0 <= k < |words| ==> IsToken(words[k]) && '&' !in words[k]
    ensures SegmentTokens(Join(words, " ")) == words
  {
    var command := Join(words, " ");
    JoinChars(words, " ", '&');
    assert IsToken(words[0]) && IsToken(words[|words| - 1]);
    JoinedWordsTrimmed(words);
    FirstSegmentWhole(command, "&&");
    TrimmedFixed(command);
    TokensOfJoined(words);
  }

  /** Non-empty words joined by spaces, the first starting and the last ending
      with a non-whitespace character, have no whitespace at either end. */
  lemma JoinedWordsTrimmed(words: seq<string>)
    requires |words| >= 1 && forall k :: 0 <= k < |words| ==> words[k] != []
    requires !IsWhitespace(words[0][0])
    requires !IsWhitespace(words[|words| - 1][|words[|words| - 1]| - 1])
    ensures Trimmed(Join(words, " "))
  {
    JoinEnds(words, " ");
  }

  /** A step whose uninstall command is the words joined by spaces is read back
      as exactly those words. */
  lemma StepOfWords(step: Step, words: seq<string>)
    requires |words| >= 1
    requires forall k :: 0 <= k < |words| ==> IsToken(words[k]) && '&' !in words[k]
    requires step.uninstall == Some(Join(words, " "))
    ensures Present(step.uninstall) && SegmentTokens(step.uninstall.value) == words
  {
    JoinEnds(words, " ");
    SegmentOfWords(words);
  }

  // ---------------------------------------------------------------------------
  // Brew (`BrewDependencyProvider.ts`)

  const BrewChain: seq<set<string>> := [{"brew"}, {"uninstall"}]

  /** `--cask` occurs among the tokens at positions `from` up to (excluding) `to`. */
  predicate CaskBetween(ts: seq<string>, from: nat, to: nat) {
    exists m :: from <= m < to && m < |ts| && ts[m] == "--cask"
  }

  /** Brew's reading of the tokens from position `k` on: the first non-flag token,
      a cask exactly when `--cask` comes before it. */
  function BrewOperand(ts: seq<string>, k: nat): Option<PackageInfo> {
    var j := FirstOperand(ts, k);
    if j < 0 then None else Some(PackageInfo(ts[j], Some(CaskBetween(ts, k, j))))
  }

  /** Brew's reading of a token list: the first `brew`, the first `uninstall` after
      it, then the scan after that. */
  function BrewTokens(ts: seq<string>): Option<PackageInfo> {
    var k := AfterKeywords(ts, BrewChain, 0);
    if k < 0 then None else BrewOperand(ts, k)
  }

  /** What brew's `getPackageInfo` returns: no uninstall command, no `brew` token, no
      later `uninstall` token, or only flags after it give `None`. */
  function BrewPackage(step: Step): Option<PackageInfo>
  {
    if !Present(step.uninstall) then None
    else BrewTokens(SegmentTokens(step.uninstall.value))
  }

  /** Brew's `getPackageInfo`. */
  method BrewGetPackageInfo(step: Step) returns (r: Option<PackageInfo>)
    ensures r == BrewPackage(step)
  {
    if !Present(step.uninstall) {
      return None;
    }
    var tokens := SegmentTokens(step.uninstall.value);
    r := BrewParseTokens(tokens);
  }

  /** The index lookups of brew's `getPackageInfo` and its scan after `uninstall`. */
  method BrewParseTokens(tokens: seq<string>) returns (r: Option<PackageInfo>)
    ensures r == BrewTokens(tokens)
  {
    var brewIndex := FindToken(tokens, {"brew"}, 0);
    ChainStep(tokens, BrewChain, 0);
    if brewIndex < 0 {
      return None;
    }
    var uninstallIndex := FindToken(tokens, {"uninstall"}, brewIndex + 1);
    ChainStep(tokens, BrewChain[1..], brewIndex + 1);
    if uninstallIndex < 0 {
      return None;
    }
    assert BrewChain[1..][1..] == [];
    r := ScanBrewOperand(tokens, uninstallIndex + 1);
  }

  /** The `for` loop of brew's `getPackageInfo`: it raises the cask flag on `--cask`,
      skips other flags and stops at the first other token. */
  method ScanBrewOperand(tokens: seq<string>, k: nat) returns (r: Option<PackageInfo>)
    requires k <= |tokens|
    ensures r == BrewOperand(tokens, k)
  {
    var isCask := false;
    for i := k to |tokens|
      invariant forall m :: k <= m < i ==> IsFlag(tokens[m])
      invariant isCask == CaskBetween(tokens, k, i)
    {
      var token := tokens[i];
      if token == "--cask" {
        isCask := true;
        continue;
      }
      if IsFlag(token) {
        continue;
      }
      assert FirstOperand(tokens, k) == i;
      return Some(PackageInfo(token, Some(isCask)));
    }
    assert FirstOperand(tokens, k) == -1;
    return None;
  }

  /** Brew recognises a step exactly when its uninstall command has a `brew` token,
      a later `uninstall` token and a non-flag token after that. */
  lemma BrewPackageFound(step: Step)
    ensures BrewPackage(step).Some? <==>
      Present(step.uninstall) && Recognises(SegmentTokens(step.uninstall.value), BrewChain, 0)
  {
    if Present(step.uninstall) {
      BrewTokensFound(SegmentTokens(step.uninstall.value));
    }
  }

  /** The same on a command already split into tokens. */
  lemma BrewTokensFound(ts: seq<string>)
    ensures BrewTokens(ts).Some? <==> Recognises(ts, BrewChain, 0)
  {
    KeywordsFoundIff(ts, BrewChain, 0);
  }

  /** The brew package is the first non-flag token after the first `uninstall` that
      follows the first `brew`; it is a cask exactly when `--cask` is among the flags
      in between. */
  lemma BrewTokensName(ts: seq<string>)
    requires BrewTokens(ts).Some?
    ensures exists u, j :: BrewNameAt(ts, u, j, BrewTokens(ts).value)
  {
    var b := FindToken(ts, {"brew"}, 0);
    ChainStep(ts, BrewChain, 0);
    var u := FindToken(ts, {"uninstall"}, b + 1);
    ChainStep(ts, BrewChain[1..], b + 1);
    assert BrewChain[1..][1..] == [];
    assert BrewTokens(ts) == BrewOperand(ts, u + 1);
    var j := FirstOperand(ts, u + 1);
    var info := BrewTokens(ts).value;
    assert info == PackageInfo(ts[j], Some(CaskBetween(ts, u + 1, j)));
    assert BrewNameAt(ts, u, j, info);
  }

  /** `info` is read from the `uninstall` token at `u` and the name token at `j`. */
  predicate BrewNameAt(ts: seq<string>, u: int, j: int, info: PackageInfo) {
    && 0 <= u < j < |ts|
    && ts[u] == "uninstall"
    && ts[j] == info.name
    && !IsFlag(ts[j])
    && (forall m :: u < m < j ==> IsFlag(ts[m]))
    && info.cask == Some(CaskBetween(ts, u + 1, j))
  }

  /** Brew and the generic reading agree on the package name. */
  lemma BrewPackageName(step: Step)
    requires BrewPackage(step).Some?
    ensures Present(step.uninstall)
    ensures Operand(step.uninstall.value, BrewChain) == Some(BrewPackage(step).value.name)
  {
  }

  /** The catalogue's example: a forced formula removal. */
  lemma BrewExample(s: Step)
    requires s.uninstall == Some(Join(["brew", "uninstall", "--force", "git"], " "))
    ensures BrewPackage(s) == Some(PackageInfo("git", Some(false)))
  {
    var ws := ["brew", "uninstall", "--force", "git"];
    StepOfWords(s, ws);
    BrewTokensExample(ws);
  }

  lemma BrewTokensExample(ws: seq<string>)
    requires ws == ["brew", "uninstall", "--force", "git"]
    ensures BrewTokens(ws) == Some(PackageInfo("git", Some(false)))
  {
    assert FindToken(ws, {"brew"}, 0) == 0;
    ChainStep(ws, BrewChain, 0);
    assert FindToken(ws, {"uninstall"}, 1) == 1;
    ChainStep(ws, BrewChain[1..], 1);
    assert BrewChain[1..][1..] == [];
    assert FirstOperand(ws, 2) == 3;
  }

  /** A cask removal is recognised as a cask. */
  lemma BrewCaskExample(cs: seq<string>)
    requires cs == ["brew", "uninstall", "--cask", "--force", "iterm2"]
    ensures BrewTokens(cs) == Some(PackageInfo("iterm2", Some(true)))
  {
    assert FindToken(cs, {"brew"}, 0) == 0;
    ChainStep(cs, BrewChain, 0);
    assert FindToken(cs, {"uninstall"}, 1) == 1;
    ChainStep(cs, BrewChain[1..], 1);
    assert BrewChain[1..][1..] == [];
    assert IsFlag(cs[2]) && IsFlag(cs[3]) && !IsFlag(cs[4]);
    assert FirstOperand(cs, 4) == 4;
    assert FirstOperand(cs, 2) == 4;
    assert CaskBetween(cs, 2, 4) by { assert cs[2] == "--cask"; }
  }

  /** `uninstall` followed by flags only is not recognised. */
  lemma BrewFlagsOnlyExample(fs: seq<string>)
    requires fs == ["brew", "uninstall", "--force"]
    ensures BrewTokens(fs) == None
  {
    assert FindToken(fs, {"brew"}, 0) == 0;
    ChainStep(fs, BrewChain, 0);
    assert FindToken(fs, {"uninstall"}, 1) == 1;
    ChainStep(fs, BrewChain[1..], 1);
    assert BrewChain[1..][1..] == [];
    assert FirstOperand(fs, 2) == -1;
  }

  /** The trimmed, non-empty lines among `lines`, in order. */
  function NonBlank(lines: seq<string>): seq<string>
  {
    if lines == [] then []
    else
      var t := Trim(lines[0]);
      if t == [] then NonBlank(lines[1..]) else [t] + NonBlank(lines[1..])
  }

  /** Every kept line is non-empty and trimmed. */
  lemma {:induction false} NonBlankTrimmedLines(lines: seq<string>)
    ensures forall k :: 0 <= k < |NonBlank(lines)| ==> NonBlank(lines)[k] != [] && Trimmed(NonBlank(lines)[k])
    decreases |lines|
  {
    if lines != [] {
      var rest := NonBlank(lines[1..]);
      NonBlankTrimmedLines(lines[1..]);
      var t := Trim(lines[0]);
      if t != [] {
        var out := NonBlank(lines);
        assert out == [t] + rest;
        forall k | 0 <= k < |out| ensures out[k] != [] && Trimmed(out[k]) {
          if k > 0 { assert out[k] == rest[k - 1]; }
        }
      }
    }
  }

  /** No line holds a line break. */
  predicate Unbroken(lines: seq<string>) {
    forall m :: 0 <= m < |lines| ==> '\n' !in lines[m]
  }

  lemma UnbrokenCons(t: string, rest: seq<string>)
    requires '\n' !in t && Unbroken(rest)
    ensures Unbroken([t] + rest)
  {
    var all := [t] + rest;
    forall m | 0 <= m < |all| ensures '\n' !in all[m] {
      if m > 0 { assert all[m] == rest[m - 1]; }
    }
  }

  lemma UnbrokenTail(lines: seq<string>)
    requires lines != [] && Unbroken(lines)
    ensures '\n' !in lines[0] && Unbroken(lines[1..])
  {
    forall m | 0 <= m < |lines[1..]| ensures '\n' !in lines[1..][m] {
      assert lines[1..][m] == lines[m + 1];
    }
  }

  /** Lines without a line break stay without one. */
  lemma {:induction false} NonBlankUnbroken(lines: seq<string>)
    requires Unbroken(lines)
    ensures Unbroken(NonBlank(lines))
    decreases |lines|
  {
    if lines != [] {
      UnbrokenTail(lines);
      NonBlankUnbroken(lines[1..]);
      var t := Trim(lines[0]);
      if t != [] {
        TrimKeepsOut(lines[0], '\n');
        UnbrokenCons(t, NonBlank(lines[1..]));
      }
    }
  }

  /** The query brew's `getDependents` runs for a package. */
  function BrewUsesCommand(info: PackageInfo): string {
    "brew uses --installed " + (if info.cask == Some(true) then "--cask " else "") + info.name
  }

  /** Brew's `getDependents`: the trimmed, non-empty lines of the
      `brew uses --installed` output, or nothing when that query fails (`None`).
      Splitting on `\r?\n` and trimming equals splitting on `\n` and trimming, since
      a carriage return is whitespace. */
  function BrewDependents(output: Option<string>): (ds: seq<string>)
    ensures forall k :: 0 <= k < |ds| ==> ds[k] != [] && Trimmed(ds[k]) && '\n' !in ds[k]
  {
    match output
    case None => []
    case Some(text) =>
      NonBlankTrimmedLines(SplitOn(text, '\n'));
      NonBlankUnbroken(SplitOn(text, '\n'));
      NonBlank(SplitOn(text, '\n'))
  }

  lemma {:induction false} NonBlankTrimmed(names: seq<string>)
    requires forall k :: 0 <= k < |names| ==> names[k] != [] && Trimmed(names[k])
    ensures NonBlank(names) == names
    decreases |names|
  {
    if names != [] {
      TrimmedFixed(names[0]);
      NonBlankTrimmed(names[1..]);
    }
  }

  /** A listing of one package per line is read back as exactly those packages. */
  lemma BrewDependentsOfListing(names: seq<string>)
    requires names != []
    requires forall k :: 0 <= k < |names| ==> names[k] != [] && Trimmed(names[k]) && '\n' !in names[k]
    ensures BrewDependents(Some(Join(names, "\n"))) == names
  {
    SplitOnJoin(names, '\n');
    NonBlankTrimmed(names);
  }

  // ---------------------------------------------------------------------------
  // Npm (`NpmDependencyProvider.ts`)

  const NpmChain: seq<set<string>> := [{"npm"}, {"uninstall", "remove"}]

  /** What npm's `getPackageInfo` returns. */
  function NpmPackage(step: Step): Option<PackageInfo>
  {
    if !Present(step.uninstall) then None
    else
      match Operand(step.uninstall.value, NpmChain)
      case None => None
      case Some(name) => Some(PackageInfo(name, None))
  }

  /** Npm's `getPackageInfo`. */
  method NpmGetPackageInfo(step: Step) returns (r: Option<PackageInfo>)
    ensures r == NpmPackage(step)
  {
    if !Present(step.uninstall) {
      return None;
    }
    var tokens := SegmentTokens(step.uninstall.value);
    var name := NpmParseTokens(tokens);
    assert name == TokenOperand(tokens, NpmChain) == Operand(step.uninstall.value, NpmChain);
    r := if name.None? then None else Some(PackageInfo(name.value, None));
  }

  /** The index lookups of npm's `getPackageInfo` (an `npm` token, then `uninstall` or
      `remove` after it) and its scan for the first token that is not a flag. */
  method NpmParseTokens(tokens: seq<string>) returns (name: Option<string>)
    ensures name == (var k := AfterKeywords(tokens, NpmChain, 0);
                     if k < 0 || FirstOperand(tokens, k) < 0 then None else Some(tokens[FirstOperand(tokens, k)]))
  {
    var npmIndex := FindToken(tokens, {"npm"}, 0);
    ChainStep(tokens, NpmChain, 0);
    if npmIndex < 0 {
      return None;
    }
    var uninstallIndex := FindToken(tokens, {"uninstall", "remove"}, npmIndex + 1);
    ChainStep(tokens, NpmChain[1..], npmIndex + 1);
    if uninstallIndex < 0 {
      return None;
    }
    assert NpmChain[1..][1..] == [];
    ghost var k := uninstallIndex + 1;
    for i := uninstallIndex + 1 to |tokens|
      invariant forall m :: k <= m < i ==> IsFlag(tokens[m])
    {
      var token := tokens[i];
      if IsFlag(token) {
        continue;
      }
      assert FirstOperand(tokens, k) == i;
      return Some(token);
    }
    assert FirstOperand(tokens, k) == -1;
    return None;
  }

  /** Npm recognises a step exactly when its uninstall command has an `npm` token, a
      later `uninstall` or `remove`, and a non-flag token after that. */
  lemma NpmPackageFound(step: Step)
    ensures NpmPackage(step).Some? <==>
      Present(step.uninstall) && Recognises(SegmentTokens(step.uninstall.value), NpmChain, 0)
  {
    if Present(step.uninstall) {
      OperandFound(step.uninstall.value, NpmChain);
    }
  }

  /** The catalogue's Codex entry. */
  lemma NpmTokensExample(ws: seq<string>)
    requires ws == ["sudo", "npm", "uninstall", "-g", "@openai/codex"]
    ensures TokenOperand(ws, NpmChain) == Some("@openai/codex")
  {
    assert FindToken(ws, {"npm"}, 0) == 1;
    ChainStep(ws, NpmChain, 0);
    assert FindToken(ws, {"uninstall", "remove"}, 2) == 2;
    ChainStep(ws, NpmChain[1..], 2);
    assert NpmChain[1..][1..] == [];
    assert FirstOperand(ws, 3) == 4;
  }

  /** `NpmTree`: the parsed `npm ls -g --json --all` output. `dependencies` keeps the
      entries of the JSON object in their iteration order. */
  datatype NpmTree = NpmTree(name: Option<string>, dependencies: NpmDependencies)

  /** A node's `dependencies` object, absent or given as its entries. */
  datatype NpmDependencies = NoDependencies | Dependencies(entries: seq<(string, NpmTree)>)

  /** The walk records `parentName` only when it is truthy and differs from the root's name. */
  predicate Records(parent: Option<string>, root: Option<string>) {
    parent.Some? && parent.value != "" && parent != root
  }

  /** The (package, dependent) pairs the walk of `node`, reached under `parent`,
      records, in walk order. */
  function Recorded(node: NpmTree, parent: Option<string>, root: Option<string>): seq<(string, string)>
    decreases node, 1, 0
  {
    match node.dependencies
    case NoDependencies => []
    case Dependencies(entries) => RecordedPrefix(node, entries, parent, root, |entries|)
  }

  /** The pairs recorded for the first `i` entries of `node`. */
  function RecordedPrefix(node: NpmTree, entries: seq<(string, NpmTree)>, parent: Option<string>,
                          root: Option<string>, i: nat): seq<(string, string)>
    requires node.dependencies == Dependencies(entries) && i <= |entries|
    decreases node, 0, i
  {
    if i == 0 then []
    else RecordedPrefix(node, entries, parent, root, i - 1) + EntryPairs(node, entries, parent, root, i - 1)
  }

  /** The pairs recorded for entry `i` of `node`: the entry itself under `parent`,
      then what the walk of the entry's own node records. */
  function EntryPairs(node: NpmTree, entries: seq<(string, NpmTree)>, parent: Option<string>,
                      root: Option<string>, i: nat): seq<(string, string)>
    requires node.dependencies == Dependencies(entries) && i < |entries|
    decreases node, 0, 0
  {
    var (depName, depNode) := entries[i];
    (if Records(parent, root) then [(depName, parent.value)] else [])
      + Recorded(depNode, Some(depName), root)
  }

  /** `reverse.get(c).add(p)` after creating the set when missing; a set keeps its
      first-insertion order and no duplicates. */
  function Insert(reverse: map<string, seq<string>>, pair: (string, string)): map<string, seq<string>> {
    var (c, p) := pair;
    var ds := if c in reverse then reverse[c] else [];
    reverse[c := if p in ds then ds else ds + [p]]
  }

  /** `m.get(k)`, created empty when missing, then `.add(v)`. */
  method AddEntry(m: map<string, seq<string>>, k: string, v: string) returns (r: map<string, seq<string>>)
    ensures r == Insert(m, (k, v))
  {
    var vs := if k in m then m[k] else [];
    if v !in vs {
      vs := vs + [v];
    }
    r := m[k := vs];
  }

  function InsertAll(reverse: map<string, seq<string>>, pairs: seq<(string, string)>): map<string, seq<string>>
    decreases |pairs|
  {
    if pairs == [] then reverse
    else Insert(InsertAll(reverse, pairs[..|pairs| - 1]), pairs[|pairs| - 1])
  }

  /** The reverse-dependency index `buildReverseDependencies` computes. */
  function ReverseIndex(tree: NpmTree): map<string, seq<string>> {
    InsertAll(map[], Recorded(tree, tree.name, tree.name))
  }

  /** Independent reading of the tree: `c` is listed as a dependency directly under a
      node reached with name `p`. */
  predicate TreeEdge(node: NpmTree, parent: Option<string>, p: Option<string>, c: string)
    decreases node, 1
  {
    node.dependencies.Dependencies?
    && exists k :: 0 <= k < |node.dependencies.entries| && EdgeAt(node, k, parent, p, c)
  }

  predicate EdgeAt(node: NpmTree, k: nat, parent: Option<string>, p: Option<string>, c: string)
    requires node.dependencies.Dependencies? && k < |node.dependencies.entries|
    decreases node, 0
  {
    var (depName, depNode) := node.dependencies.entries[k];
    (p == parent && c == depName) || TreeEdge(depNode, Some(depName), p, c)
  }

  /** No package is listed twice in one dependents list. */
  predicate DuplicateFree(reverse: map<string, seq<string>>) {
    forall c :: c in reverse ==> forall i, j :: 0 <= i < j < |reverse[c]| ==> reverse[c][i] != reverse[c][j]
  }

  lemma {:induction false} InsertAllAppend(m: map<string, seq<string>>, a: seq<(string, string)>, b: seq<(string, string)>)
    ensures InsertAll(m, a + b) == InsertAll(InsertAll(m, a), b)
    decreases |b|
  {
    if b == [] {
      assert a + b == a;
    } else {
      assert (a + b)[..|a + b| - 1] == a + b[..|b| - 1];
      InsertAllAppend(m, a, b[..|b| - 1]);
    }
  }

  lemma InsertAllSnoc(m: map<string, seq<string>>, pairs: seq<(string, string)>, pair: (string, string))
    ensures InsertAll(m, pairs + [pair]) == Insert(InsertAll(m, pairs), pair)
  {
    assert (pairs + [pair])[..|pairs|] == pairs;
  }

  /** The index holds exactly the inserted pairs beyond what it held before. */
  lemma {:induction false} InsertAllMembers(m: map<string, seq<string>>, pairs: seq<(string, string)>)
    ensures forall c, p :: (c in InsertAll(m, pairs) && p in InsertAll(m, pairs)[c]) <==>
      ((c in m && p in m[c]) || (c, p) in pairs)
    decreases |pairs|
  {
    if pairs != [] {
      var init := pairs[..|pairs| - 1];
      var last := pairs[|pairs| - 1];
      InsertAllMembers(m, init);
      assert pairs == init + [last];
      var r := InsertAll(m, init);
      forall c, p ensures (c in InsertAll(m, pairs) && p in InsertAll(m, pairs)[c]) <==>
        ((c in m && p in m[c]) || (c, p) in pairs)
      {
        assert (c, p) in pairs <==> (c, p) in init || (c, p) == last;
        if c == last.0 {
          var ds := if c in r then r[c] else [];
          assert InsertAll(m, pairs)[c] == if last.1 in ds then ds else ds + [last.1];
        } else {
          assert c in InsertAll(m, pairs) <==> c in r;
        }
      }
    }
  }

  /** The index has a key for exactly the packages some inserted pair names. */
  lemma {:induction false} InsertAllKeys(m: map<string, seq<string>>, pairs: seq<(string, string)>)
    ensures forall c :: c in InsertAll(m, pairs) <==> (c in m || exists p :: (c, p) in pairs)
    decreases |pairs|
  {
    if pairs != [] {
      var init := pairs[..|pairs| - 1];
      var last := pairs[|pairs| - 1];
      InsertAllKeys(m, init);
      assert pairs == init + [last];
      var r := InsertAll(m, init);
      forall c | c in InsertAll(m, pairs) ensures c in m || exists p :: (c, p) in pairs {
        if c != last.0 {
          assert c in r;
        } else {
          assert (c, last.1) in pairs;
        }
      }
    }
  }

  /** Inserting never creates a duplicate dependent. */
  lemma {:induction false} InsertAllDuplicateFree(m: map<string, seq<string>>, pairs: seq<(string, string)>)
    requires DuplicateFree(m)
    ensures DuplicateFree(InsertAll(m, pairs))
    decreases |pairs|
  {
    if pairs != [] {
      InsertAllDuplicateFree(m, pairs[..|pairs| - 1]);
    }
  }

  lemma {:induction false} RecordedEdges(node: NpmTree, parent: Option<string>, root: Option<string>, c: string, q: string)
    ensures (c, q) in Recorded(node, parent, root) <==> Records(Some(q), root) && TreeEdge(node, parent, Some(q), c)
    decreases node, 1, 0
  {
    if node.dependencies.Dependencies? {
      var entries := node.dependencies.entries;
      RecordedPrefixEdges(node, entries, parent, root, |entries|, c, q);
      assert Recorded(node, parent, root) == RecordedPrefix(node, entries, parent, root, |entries|);
      assert TreeEdge(node, parent, Some(q), c) <==> exists k :: 0 <= k < |entries| && EdgeAt(node, k, parent, Some(q), c);
    } else {
      assert !TreeEdge(node, parent, Some(q), c);
      assert Recorded(node, parent, root) == [];
    }
  }

  lemma {:induction false} RecordedPrefixEdges(node: NpmTree, entries: seq<(string, NpmTree)>, parent: Option<string>,
                                               root: Option<string>, i: nat, c: string, q: string)
    requires node.dependencies == Dependencies(entries) && i <= |entries|
    ensures (c, q) in RecordedPrefix(node, entries, parent, root, i) ==>
      Records(Some(q), root) && exists k :: 0 <= k < i && EdgeAt(node, k, parent, Some(q), c)
    ensures forall k :: 0 <= k < i && Records(Some(q), root) && EdgeAt(node, k, parent, Some(q), c) ==>
      (c, q) in RecordedPrefix(node, entries, parent, root, i)
    decreases node, 0, i
  {
    if i > 0 {
      RecordedPrefixEdges(node, entries, parent, root, i - 1, c, q);
      EntryPairsEdges(node, entries, parent, root, i - 1, c, q);
    }
  }

  lemma {:induction false} EntryPairsEdges(node: NpmTree, entries: seq<(string, NpmTree)>, parent: Option<string>,
                                           root: Option<string>, i: nat, c: string, q: string)
    requires node.dependencies == Dependencies(entries) && i < |entries|
    ensures (c, q) in EntryPairs(node, entries, parent, root, i) <==>
      Records(Some(q), root) && EdgeAt(node, i, parent, Some(q), c)
    decreases node, 0, 0
  {
    var (depName, depNode) := entries[i];
    RecordedEdges(depNode, Some(depName), root, c, q);
  }

  /** The reverse index lists `q` as a dependent of `c` exactly when some node named
      `q` has `c` among its dependencies, `q` is not empty and is not the root's name;
      no dependents list repeats a name. */
  lemma ReverseIndexSpec(tree: NpmTree)
    ensures forall c, q :: (c in ReverseIndex(tree) && q in ReverseIndex(tree)[c]) <==>
      (q != "" && Some(q) != tree.name && TreeEdge(tree, tree.name, Some(q), c))
    ensures DuplicateFree(ReverseIndex(tree))
  {
    var pairs := Recorded(tree, tree.name, tree.name);
    InsertAllMembers(map[], pairs);
    InsertAllDuplicateFree(map[], pairs);
    forall c, q ensures (c, q) in pairs <==> (q != "" && Some(q) != tree.name && TreeEdge(tree, tree.name, Some(q), c)) {
      RecordedEdges(tree, tree.name, tree.name, c, q);
    }
  }

  /** `dependentsCache.get(name) || []`. */
  function DependentsOf(index: map<string, seq<string>>, name: string): seq<string> {
    if name in index then index[name] else []
  }

  /** The npm provider: a reverse-dependency index built on the first query from the
      global package listing, and a sticky load-error flag. */
  class NpmDependencyProvider {
    var dependentsCache: Option<map<string, seq<string>>>
    var loadError: bool
    /** How many times the index has been built. */
    ghost var builds: nat

    ghost predicate Valid()
      reads this
    {
      && builds <= 1
      && (dependentsCache.None? <==> builds == 0)
      && (loadError ==> dependentsCache == Some(map[]))
    }

    constructor()
      ensures Valid() && dependentsCache == None && !loadError && builds == 0
    {
      dependentsCache := None;
      loadError := false;
      builds := 0;
    }

    /** The index `buildDependentsCache` produces from the listing: the reverse index
        of the tree, or the empty index when the listing cannot be obtained. */
    static function CacheFor(listing: Option<NpmTree>): map<string, seq<string>> {
      match listing
      case None => map[]
      case Some(tree) => ReverseIndex(tree)
    }

    /** `getDependents`. `listing` stands for the outcome of `npm ls -g --json --all`
        (`None` when the command or its JSON parse fails); it is consulted only when
        the index has not been built yet. */
    method GetDependents(info: PackageInfo, listing: Option<NpmTree>) returns (ds: seq<string>)
      requires Valid()
      modifies this
      ensures Valid()
      ensures old(loadError) ==> ds == [] && unchanged(this)
      ensures !old(loadError) && old(dependentsCache).Some? ==>
        ds == DependentsOf(old(dependentsCache).value, info.name) && unchanged(this)
      ensures !old(loadError) && old(dependentsCache).None? ==>
        && dependentsCache == Some(CacheFor(listing))
        && loadError == listing.None?
        && ds == DependentsOf(CacheFor(listing), info.name)
      ensures loadError ==> ds == []
      ensures old(dependentsCache).Some? ==> dependentsCache == old(dependentsCache)
    {
      if loadError {
        return [];
      }
      if dependentsCache.None? {
        var built := BuildDependentsCache(listing);
        dependentsCache := Some(built);
        builds := builds + 1;
      }
      ds := DependentsOf(dependentsCache.value, info.name);
    }

    /** `buildDependentsCache`: on failure it raises the error flag and yields an
        empty index. */
    method BuildDependentsCache(listing: Option<NpmTree>) returns (index: map<string, seq<string>>)
      modifies this`loadError
      ensures index == CacheFor(listing)
      ensures loadError == (old(loadError) || listing.None?)
    {
      match listing
      case None =>
        loadError := true;
        index := map[];
      case Some(tree) =>
        index := BuildReverseDependencies(tree);
    }

    /** `buildReverseDependencies`. */
    static method BuildReverseDependencies(tree: NpmTree) returns (reverse: map<string, seq<string>>)
      ensures reverse == ReverseIndex(tree)
    {
      reverse := Walk(tree, tree.name, tree.name, map[]);
    }

    /** The recursive `walk(node, parentName)` over the entries of `node.dependencies`. */
    static method Walk(node: NpmTree, parentName: Option<string>, rootName: Option<string>,
                       reverse0: map<string, seq<string>>) returns (reverse: map<string, seq<string>>)
      ensures reverse == InsertAll(reverse0, Recorded(node, parentName, rootName))
      decreases node, 1
    {
      reverse := reverse0;
      if node.dependencies.NoDependencies? {
        return;
      }
      var entries := node.dependencies.entries;
      for i := 0 to |entries|
        invariant reverse == InsertAll(reverse0, RecordedPrefix(node, entries, parentName, rootName, i))
      {
        ghost var before := reverse;
        reverse := WalkEntry(node, entries, i, parentName, rootName, reverse);
        WalkStep(reverse0, node, entries, parentName, rootName, i, before, reverse);
      }
    }

    /** Walking entry `i` extends the pairs recorded for the first `i` entries to
        those recorded for the first `i + 1`. */
    static lemma WalkStep(reverse0: map<string, seq<string>>, node: NpmTree, entries: seq<(string, NpmTree)>,
                          parent: Option<string>, root: Option<string>, i: nat,
                          before: map<string, seq<string>>, after: map<string, seq<string>>)
      requires node.dependencies == Dependencies(entries) && i < |entries|
      requires before == InsertAll(reverse0, RecordedPrefix(node, entries, parent, root, i))
      requires after == InsertAll(before, EntryPairs(node, entries, parent, root, i))
      ensures after == InsertAll(reverse0, RecordedPrefix(node, entries, parent, root, i + 1))
    {
      InsertAllAppend(reverse0, RecordedPrefix(node, entries, parent, root, i), EntryPairs(node, entries, parent, root, i));
    }

    /** One iteration of `walk`'s loop: record entry `i` under `parentName`, then
        walk the entry's node. */
    static method WalkEntry(node: NpmTree, entries: seq<(string, NpmTree)>, i: nat, parentName: Option<string>,
                            rootName: Option<string>, reverse0: map<string, seq<string>>)
      returns (reverse: map<string, seq<string>>)
      requires node.dependencies == Dependencies(entries) && i < |entries|
      ensures reverse == InsertAll(reverse0, EntryPairs(node, entries, parentName, rootName, i))
      decreases node, 0
    {
      var (depName, depNode) := entries[i];
      ghost var own: seq<(string, string)> := [];
      reverse := reverse0;
      if Records(parentName, rootName) {
        own := [(depName, parentName.value)];
        reverse := AddEntry(reverse, depName, parentName.value);
        InsertAllSnoc(reverse0, [], own[0]);
        assert [] + own == own;
      }
      assert reverse == InsertAll(reverse0, own);
      reverse := Walk(depNode, Some(depName), rootName, reverse);
      InsertAllAppend(reverse0, own, Recorded(depNode, Some(depName), rootName));
    }
  }

  /** Once built, the index answers every later query from the cache, whatever the
      listing would say by then: the listing is read at most once. */
  method NpmQueriesShareIndex(a: PackageInfo, b: PackageInfo, first: Option<NpmTree>, second: Option<NpmTree>)
    returns (da: seq<string>, db: seq<string>)
    ensures da == DependentsOf(NpmDependencyProvider.CacheFor(first), a.name)
    ensures db == DependentsOf(NpmDependencyProvider.CacheFor(first), b.name)
  {
    var provider := new NpmDependencyProvider();
    da := provider.GetDependents(a, first);
    db := provider.GetDependents(b, second);
  }

  // ---------------------------------------------------------------------------
  // Pipx and uv (`PipxDependencyProvider.ts`, `UvToolDependencyProvider.ts`)

  const PipxChain: seq<set<string>> := [{"pipx"}, {"uninstall"}]
  const UvChain: seq<set<string>> := [{"uv"}, {"tool"}, {"uninstall"}]

  /** Pipx's `getPackageInfo`. */
  function PipxPackage(step: Step): (r: Option<PackageInfo>)
    ensures r.Some? <==> Present(step.uninstall) && Recognises(SegmentTokens(step.uninstall.value), PipxChain, 0)
    ensures r.Some? ==> r.value.cask.None? && !IsFlag(r.value.name)
  {
    if !Present(step.uninstall) then None
    else
      OperandFound(step.uninstall.value, PipxChain);
      match Operand(step.uninstall.value, PipxChain)
      case None => None
      case Some(name) => Some(PackageInfo(name, None))
  }

  /** Uv's `getPackageInfo`: `uv`, then `tool`, then `uninstall`, each after the last. */
  function UvToolPackage(step: Step): (r: Option<PackageInfo>)
    ensures r.Some? <==> Present(step.uninstall) && Recognises(SegmentTokens(step.uninstall.value), UvChain, 0)
    ensures r.Some? ==> r.value.cask.None? && !IsFlag(r.value.name)
  {
    if !Present(step.uninstall) then None
    else
      OperandFound(step.uninstall.value, UvChain);
      match Operand(step.uninstall.value, UvChain)
      case None => None
      case Some(name) => Some(PackageInfo(name, None))
  }

  /** The catalogue's Whisper entry. */
  lemma PipxTokensExample(ws: seq<string>)
    requires ws == ["pipx", "uninstall", "openai-whisper"]
    ensures TokenOperand(ws, PipxChain) == Some("openai-whisper")
  {
    assert FindToken(ws, {"pipx"}, 0) == 0;
    ChainStep(ws, PipxChain, 0);
    assert FindToken(ws, {"uninstall"}, 1) == 1;
    ChainStep(ws, PipxChain[1..], 1);
    assert PipxChain[1..][1..] == [];
    assert FirstOperand(ws, 2) == 2;
  }

  /** A uv tool removal is recognised. */
  lemma UvTokensExample(ws: seq<string>)
    requires ws == ["uv", "tool", "uninstall", "ruff"]
    ensures TokenOperand(ws, UvChain) == Some("ruff")
  {
    var c1 := UvChain[1..];
    var c2 := c1[1..];
    assert c2[1..] == [];
    assert FindToken(ws, {"uv"}, 0) == 0;
    ChainStep(ws, UvChain, 0);
    assert FindToken(ws, {"tool"}, 1) == 1;
    ChainStep(ws, c1, 1);
    assert FindToken(ws, {"uninstall"}, 2) == 2;
    ChainStep(ws, c2, 2);
    assert FirstOperand(ws, 3) == 3;
  }

  /** `uv uninstall` without the `tool` keyword is not a uv tool removal. */
  lemma UvWithoutToolExample(vs: seq<string>)
    requires vs == ["uv", "uninstall", "ruff"]
    ensures TokenOperand(vs, UvChain) == None
  {
    assert FindToken(vs, {"uv"}, 0) == 0;
    ChainStep(vs, UvChain, 0);
    ChainStep(vs, UvChain[1..], 1);
    assert FindToken(vs, {"tool"}, 1) == -1;
  }

  /** Pipx and uv report no dependents. */
  function NoDependents(info: PackageInfo): (ds: seq<string>)
    ensures |ds| == 0
  {
    []
  }
}
