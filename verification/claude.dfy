/** The pure helpers of the `claude` command: the managed export block in the shell
    start-up file, the display helpers of the profile menus, profile validation,
    the parsing of a custom model list and the update of the saved profile list. */
module Claude {
  import opened Wrappers
  import opened Strings
  import opened Json

  const BlockStart: string := "# >>> OKIT_CLAUDE"
  const BlockEnd: string := "# <<< OKIT_CLAUDE"

  /** A saved provider profile. `extra` holds the other members of the JSON object it
      was read from (none for a typed-in profile or a preset); they are written back
      with it. */
  datatype Profile = Profile(name: string, baseUrl: string, authToken: string, models: seq<string>,
                             extra: map<string, Json>)

  // ---------------------------------------------------------------------------
  // The managed block (`applyProfile`, `replaceOrAppendBlock`)

  lemma MarkerFacts()
    ensures |BlockStart| == 17 && |BlockEnd| == 17
    ensures '\n' !in BlockStart && '\n' !in BlockEnd
    ensures BlockStart[0] == '#' && BlockEnd[0] == '#'
    ensures '#' !in BlockStart[1..]
    ensures !IsWhitespace(BlockStart[16]) && !IsWhitespace(BlockEnd[16])
    ensures BlockStart != BlockEnd
  {
  }

  function ExportLines(profile: Profile, model: string): seq<string> {
    [ "export ANTHROPIC_BASE_URL=\"" + profile.baseUrl + "\"",
      "export ANTHROPIC_AUTH_TOKEN=\"" + profile.authToken + "\"",
      "export ANTHROPIC_MODEL=\"" + model + "\"" ]
  }

  /** The block `applyProfile` writes: the start marker, the three exports, the end
      marker and a final empty line, joined by newlines. */
  function ProfileBlock(profile: Profile, model: string): string {
    Join([BlockStart] + ExportLines(profile, model) + [BlockEnd, ""], "\n")
  }

  /** What the replacement needs of a block: it opens with the start marker, and
      after its first end marker there is only whitespace. */
  ghost predicate ManagedBlock(block: string) {
    && OccursAt(block, BlockStart, 0)
    && var e := IndexOf(block, BlockEnd);
       e >= 0 && AllWhitespace(block[e + |BlockEnd|..])
  }

  /** The profile fields that can break the block: a `#` could spell a marker. */
  predicate PlainFields(profile: Profile, model: string) {
    '#' !in profile.baseUrl && '#' !in profile.authToken && '#' !in model
  }

  /** The three export lines, joined. */
  function Exports(profile: Profile, model: string): string {
    var lines := ExportLines(profile, model);
    lines[0] + "\n" + lines[1] + "\n" + lines[2]
  }

  lemma ProfileBlockShape(profile: Profile, model: string)
    ensures ProfileBlock(profile, model) == BlockStart + "\n" + Exports(profile, model) + "\n" + BlockEnd + "\n"
  {
    var lines := ExportLines(profile, model);
    assert [BlockStart] + lines + [BlockEnd, ""] == [BlockStart, lines[0], lines[1], lines[2], BlockEnd, ""];
    JoinMarked(BlockStart, lines[0], lines[1], lines[2], BlockEnd, "\n");
  }

  /** Six parts, the last one empty, joined. */
  lemma JoinMarked(start: string, l0: string, l1: string, l2: string, end: string, sep: string)
    ensures Join([start, l0, l1, l2, end, ""], sep) == start + sep + (l0 + sep + l1 + sep + l2) + sep + end + sep
  {
    var p0 := [start, l0, l1, l2, end, ""];
    var p1 := [l0, l1, l2, end, ""];
    var p2 := [l1, l2, end, ""];
    var p3 := [l2, end, ""];
    var p4 := [end, ""];
    assert p0[1..] == p1 && p1[1..] == p2 && p2[1..] == p3 && p3[1..] == p4 && p4[1..] == [""];
    JoinCons(p0, sep);
    JoinCons(p1, sep);
    JoinCons(p2, sep);
    JoinCons(p3, sep);
    JoinCons(p4, sep);
  }

  /** Markers around a middle part without `#` make a managed block. */
  lemma MarkedBlockManaged(middle: string)
    requires '#' !in middle
    ensures ManagedBlock(BlockStart + "\n" + middle + "\n" + BlockEnd + "\n")
  {
    MarkerFacts();
    var block := BlockStart + "\n" + middle + "\n" + BlockEnd + "\n";
    var e := |BlockStart| + 1 + |middle| + 1;
    assert block[..|BlockStart|] == BlockStart;
    assert block[e..e + |BlockEnd|] == BlockEnd;
    forall j | 0 <= j < e ensures !OccursAt(block, BlockEnd, j) {
      if j == 0 {
        assert block[0..|BlockEnd|] == BlockStart;
      } else if j < |BlockStart| {
        assert block[j] == BlockStart[1..][j - 1];
      } else if j > |BlockStart| && j < e - 1 {
        assert block[j] == middle[j - |BlockStart| - 1];
      }
    }
    IndexOfAt(block, BlockEnd, e);
    assert block[e + |BlockEnd|..] == "\n";
  }

  /** The block `applyProfile` writes is a managed block whenever the base URL, the
      token and the model contain no `#`. */
  lemma ProfileBlockManaged(profile: Profile, model: string)
    requires PlainFields(profile, model)
    ensures ManagedBlock(ProfileBlock(profile, model))
  {
    ProfileBlockShape(profile, model);
    assert '#' !in Exports(profile, model);
    MarkedBlockManaged(Exports(profile, model));
  }

  /** `parts.filter(Boolean)` on strings: the empty ones dropped. */
  function NonEmpty(parts: seq<string>): (r: seq<string>)
    ensures forall k :: 0 <= k < |r| ==> r[k] != []
  {
    if parts == [] then []
    else (if parts[0] == [] then [] else [parts[0]]) + NonEmpty(parts[1..])
  }

  /** `[before, block, after].filter(Boolean).join("\n")`. */
  function Surround(before: string, block: string, after: string): string {
    Join(NonEmpty([before, block, after]), "\n")
  }

  function Lead(before: string): string {
    if before == [] then [] else before + "\n"
  }

  function Trail(after: string): string {
    if after == [] then [] else "\n" + after
  }

  /** The list that `filter(Boolean)` keeps from a one-element list. */
  function Kept(part: string): seq<string> {
    if part == [] then [] else [part]
  }

  lemma NonEmptyThree(before: string, block: string, after: string)
    requires block != []
    ensures NonEmpty([before, block, after]) == Kept(before) + [block] + Kept(after)
  {
    var xs := [before, block, after];
    assert xs[1..] == [block, after] && xs[1..][1..] == [after] && xs[1..][1..][1..] == [];
    assert NonEmpty([after]) == Kept(after);
    assert NonEmpty([block, after]) == [block] + Kept(after);
  }

  lemma JoinAround(before: string, block: string, after: string)
    ensures Join(Kept(before) + [block] + Kept(after), "\n") == Lead(before) + (block + Trail(after))
  {
    var parts := Kept(before) + [block] + Kept(after);
    if before == [] && after == [] {
      assert parts == [block];
    } else if before == [] {
      assert parts == [block, after] && parts[1..] == [after];
      assert block + "\n" + after == block + ("\n" + after);
    } else if after == [] {
      assert parts == [before, block] && parts[1..] == [block];
    } else {
      assert parts == [before, block, after] && parts[1..] == [block, after];
      assert [block, after][1..] == [after];
      assert Join([block, after], "\n") == block + ("\n" + after);
    }
  }

  /** With a non-empty block, the surrounding parts sit one newline away from it. */
  lemma SurroundShape(before: string, block: string, after: string)
    requires block != []
    ensures Surround(before, block, after) == Lead(before) + (block + Trail(after))
  {
    NonEmptyThree(before, block, after);
    JoinAround(before, block, after);
  }

  /** What is written when there is no block to replace: the content without its
      trailing whitespace, a blank line and the block; just the block for blank content. */
  function Appended(content: string, block: string): (r: string)
    ensures Contains(r, block)
  {
    var trimmed := TrimEnd(content);
    if trimmed == [] then
      assert OccursAt(block, block, 0);
      block
    else
      var r := trimmed + "\n\n" + block;
      assert r[|trimmed| + 2..|r|] == block;
      assert OccursAt(r, block, |trimmed| + 2);
      r
  }

  /** The replacement: the text before the start marker without its trailing
      whitespace, the block, and the text after the end marker without its leading
      whitespace, joined by newlines with empty parts dropped. */
  function Replaced(content: string, start: int, end: int, block: string): (r: string)
    requires 0 <= start <= end && end + |BlockEnd| <= |content|
    ensures Contains(r, block)
  {
    var before := TrimEnd(content[..start]);
    var after := TrimStart(content[end + |BlockEnd|..]);
    BlockInSurround(before, block, after);
    Surround(before, block, after)
  }

  /** The joined text contains the block. */
  lemma BlockInSurround(before: string, block: string, after: string)
    ensures Contains(Surround(before, block, after), block)
  {
    var r := Surround(before, block, after);
    if block == [] {
      assert OccursAt(r, block, 0);
    } else {
      SurroundShape(before, block, after);
      assert r[|Lead(before)|..|Lead(before)| + |block|] == block;
      assert OccursAt(r, block, |Lead(before)|);
    }
  }

  /** `replaceOrAppendBlock` as written: both markers are searched from the start of
      the text, so an end marker before the start marker sends it to the append case. */
  function ReplaceOrAppendBlock(content: string, block: string): (r: string)
    ensures Contains(r, block)
  {
    var start := IndexOf(content, BlockStart);
    var end := IndexOf(content, BlockEnd);
    if start >= 0 && end >= 0 && end > start then Replaced(content, start, end, block)
    else Appended(content, block)
  }

  /** `replaceOrAppendBlock` with the end marker searched from the start marker on
      (`content.indexOf(BLOCK_END, start)`), the behaviour the markers are meant to give. */
  function ReplaceOrAppendBlockAnchored(content: string, block: string): (r: string)
    ensures Contains(r, block)
  {
    var start := IndexOf(content, BlockStart);
    var end := if start >= 0 then IndexOfFrom(content, BlockEnd, start) else -1;
    if start >= 0 && end >= 0 && end > start then Replaced(content, start, end, block)
    else Appended(content, block)
  }

  /** No occurrence of the marker anywhere in the text. */
  ghost predicate Unmarked(s: string, marker: string) {
    forall j :: !OccursAt(s, marker, j)
  }

  /** `replaceOrAppendBlock` as written, in its replace case. */
  lemma ReplaceCase(content: string, block: string, start: int, end: int)
    requires start == IndexOf(content, BlockStart) && end == IndexOf(content, BlockEnd)
    requires 0 <= start < end
    ensures end + |BlockEnd| <= |content|
    ensures ReplaceOrAppendBlock(content, block) == Replaced(content, start, end, block)
  {
  }

  /** The anchored replacement, in its replace case. */
  lemma AnchoredReplaceCase(content: string, block: string, start: int, end: int)
    requires start == IndexOf(content, BlockStart) && 0 <= start <= |content|
    requires end == IndexOfFrom(content, BlockEnd, start) && start < end
    ensures end + |BlockEnd| <= |content|
    ensures ReplaceOrAppendBlockAnchored(content, block) == Replaced(content, start, end, block)
  {
  }

  /** The text `replaceOrAppendBlock` leaves when it replaces: a part without the
      start marker and without trailing whitespace, the block, and a part without
      leading whitespace. */
  ghost predicate SurroundParts(before: string, block: string, after: string) {
    && ManagedBlock(block)
    && (before == [] || !IsWhitespace(before[|before| - 1]))
    && (after == [] || !IsWhitespace(after[0]))
    && Unmarked(before, BlockStart)
  }

  /** A marker without a newline that the leading part lacks does not occur before
      the text that follows the lead. */
  lemma LeadUnmarked(before: string, rest: string, marker: string)
    requires Unmarked(before, marker) && '\n' !in marker
    ensures forall j :: 0 <= j < |Lead(before)| ==> !OccursAt(Lead(before) + rest, marker, j)
  {
    var s := Lead(before) + rest;
    forall j | 0 <= j < |Lead(before)| ensures !OccursAt(s, marker, j) {
      assert s == before + ['\n'] + rest;
      if OccursAt(s, marker, j) {
        NoStraddle(before, '\n', rest, marker, j);
      }
    }
  }

  /** The first occurrence of a pattern in the middle part, shifted past the lead, is
      the first one from the lead on. */
  lemma FirstInMiddle(lead: string, block: string, trail: string, p: string, e: int)
    requires 0 <= e && OccursAt(block, p, e)
    requires forall j :: 0 <= j < e ==> !OccursAt(block, p, j)
    ensures e + |p| <= |block|
    ensures OccursAt(lead + (block + trail), p, |lead| + e)
    ensures forall j :: |lead| <= j < |lead| + e ==> !OccursAt(lead + (block + trail), p, j)
  {
    var rest := block + trail;
    var s := lead + rest;
    OccursPrefix(block, trail, p, e);
    OccursShift(lead, rest, p, e);
    forall j | |lead| <= j < |lead| + e ensures !OccursAt(s, p, j) {
      OccursShift(lead, rest, p, j - |lead|);
      if j - |lead| + |p| <= |block| {
        OccursPrefix(block, trail, p, j - |lead|);
      }
    }
  }

  /** When the leading part has no start marker, the first start marker of the
      joined text is the block's own. */
  lemma SurroundStart(before: string, block: string, after: string)
    requires ManagedBlock(block) && Unmarked(before, BlockStart)
    ensures block != [] && Surround(before, block, after) == Lead(before) + (block + Trail(after))
    ensures IndexOf(Surround(before, block, after), BlockStart) == |Lead(before)|
  {
    MarkerFacts();
    SurroundShape(before, block, after);
    var lead, rest := Lead(before), block + Trail(after);
    FirstInMiddle(lead, block, Trail(after), BlockStart, 0);
    LeadUnmarked(before, rest, BlockStart);
    IndexOfAt(lead + rest, BlockStart, |lead|);
  }

  /** The first end marker from the block on is the block's own; searched from the
      beginning it is too when the leading part has no end marker. */
  lemma SurroundEnd(before: string, block: string, after: string, end: int)
    requires ManagedBlock(block) && Unmarked(before, BlockStart)
    requires end == |Lead(before)| + IndexOf(block, BlockEnd)
    ensures var s, lead := Surround(before, block, after), |Lead(before)|;
      && lead < end && end + |BlockEnd| <= |s|
      && IndexOfFrom(s, BlockEnd, lead) == end
      && (Unmarked(before, BlockEnd) ==> IndexOf(s, BlockEnd) == end)
  {
    MarkerFacts();
    SurroundStart(before, block, after);
    var lead, rest := Lead(before), block + Trail(after);
    var s := lead + rest;
    var e := IndexOf(block, BlockEnd);
    FirstInMiddle(lead, block, Trail(after), BlockEnd, e);
    IndexOfFromAt(s, BlockEnd, |lead|, end);
    if Unmarked(before, BlockEnd) {
      LeadUnmarked(before, rest, BlockEnd);
      IndexOfAt(s, BlockEnd, end);
    }
  }

  lemma LeadTrimmed(before: string)
    requires before == [] || !IsWhitespace(before[|before| - 1])
    ensures TrimEnd(Lead(before)) == before
  {
    if before != [] {
      TrimEndAppendWhitespace(before, "\n");
    }
  }

  lemma TrailTrimmed(tail: string, after: string)
    requires AllWhitespace(tail)
    requires after == [] || !IsWhitespace(after[0])
    ensures TrimStart(tail + Trail(after)) == after
  {
    if after == [] {
      assert tail + Trail(after) == tail;
      AllWhitespaceTrimStart(tail);
    } else {
      assert tail + Trail(after) == (tail + "\n") + after;
      TrimStartPrependWhitespace(tail + "\n", after);
    }
  }

  lemma SliceAfter(a: string, b: string, c: string, k: nat, cut: int)
    requires k <= |b| && cut == |a| + k
    ensures (a + (b + c))[cut..] == b[k..] + c
  {
  }

  lemma ReplacedOf(s: string, start: int, end: int, block: string, before: string, after: string)
    requires 0 <= start <= end && end + |BlockEnd| <= |s|
    requires TrimEnd(s[..start]) == before && TrimStart(s[end + |BlockEnd|..]) == after
    ensures Replaced(s, start, end, block) == Surround(before, block, after)
  {
  }

  /** After the block's end marker, a text built as `lead + block + trail` trims down
      to the trailing part. */
  lemma TailTrimsToAfter(lead: string, block: string, after: string, k: nat, cut: int)
    requires k <= |block| && AllWhitespace(block[k..])
    requires after == [] || !IsWhitespace(after[0])
    requires cut == |lead| + k
    ensures TrimStart((lead + (block + Trail(after)))[cut..]) == after
  {
    var tail := block[k..];
    SliceAfter(lead, block, Trail(after), k, cut);
    TrailTrimmed(tail, after);
  }

  /** Before the block, a text built as `Lead(before) + rest` trims down to `before`. */
  lemma HeadTrimsToBefore(before: string, rest: string)
    requires before == [] || !IsWhitespace(before[|before| - 1])
    ensures TrimEnd((Lead(before) + rest)[..|Lead(before)|]) == before
  {
    assert (Lead(before) + rest)[..|Lead(before)|] == Lead(before);
    LeadTrimmed(before);
  }

  /** The block's end marker is followed by whitespace only. */
  lemma ManagedTail(block: string)
    requires ManagedBlock(block)
    ensures block != []
    ensures 0 <= IndexOf(block, BlockEnd) && IndexOf(block, BlockEnd) + |BlockEnd| <= |block|
    ensures AllWhitespace(block[IndexOf(block, BlockEnd) + |BlockEnd|..])
  {
  }

  /** Replacing the block of such a text with the same block gives the text back. */
  lemma SurroundReplaced(before: string, block: string, after: string, end: int)
    requires SurroundParts(before, block, after)
    requires end == |Lead(before)| + IndexOf(block, BlockEnd)
    ensures var s := Surround(before, block, after);
      end + |BlockEnd| <= |s| && Replaced(s, |Lead(before)|, end, block) == s
  {
    ManagedTail(block);
    SurroundShape(before, block, after);
    LeadBlockTrailReplaced(before, block, after, IndexOf(block, BlockEnd) + |BlockEnd|, end);
  }

  /** The same, stated on the parts of the text. */
  lemma LeadBlockTrailReplaced(before: string, block: string, after: string, k: nat, end: int)
    requires k <= |block| && AllWhitespace(block[k..])
    requires before == [] || !IsWhitespace(before[|before| - 1])
    requires after == [] || !IsWhitespace(after[0])
    requires |Lead(before)| <= end && end + |BlockEnd| == |Lead(before)| + k
    ensures var s := Lead(before) + (block + Trail(after));
      end + |BlockEnd| <= |s| && Replaced(s, |Lead(before)|, end, block) == Surround(before, block, after)
  {
    var s := Lead(before) + (block + Trail(after));
    TailTrimsToAfter(Lead(before), block, after, k, end + |BlockEnd|);
    HeadTrimsToBefore(before, block + Trail(after));
    ReplacedOf(s, |Lead(before)|, end, block, before, after);
  }

  /** Replacing the block of an appended text (the trimmed content, a blank line and
      the block) closes the blank line up. */
  lemma AppendedReplaced(trimmed: string, block: string, end: int)
    requires ManagedBlock(block)
    requires trimmed != [] && !IsWhitespace(trimmed[|trimmed| - 1])
    requires end == |Lead(trimmed + "\n")| + IndexOf(block, BlockEnd)
    ensures var s := Surround(trimmed + "\n", block, []);
      && end + |BlockEnd| <= |s|
      && Replaced(s, |Lead(trimmed + "\n")|, end, block) == Surround(trimmed, block, [])
  {
    ManagedTail(block);
    var k := IndexOf(block, BlockEnd) + |BlockEnd|;
    var before := trimmed + "\n";
    SurroundShape(before, block, []);
    var s := Lead(before) + (block + Trail([]));
    TailTrimsToAfter(Lead(before), block, [], k, end + |BlockEnd|);
    DoubleBreakTrimmed(trimmed, block + Trail([]));
    ReplacedOf(s, |Lead(before)|, end, block, trimmed, []);
  }

  /** Before the block, an appended text trims down to the trimmed content. */
  lemma DoubleBreakTrimmed(trimmed: string, rest: string)
    requires trimmed != [] && !IsWhitespace(trimmed[|trimmed| - 1])
    ensures TrimEnd((Lead(trimmed + "\n") + rest)[..|Lead(trimmed + "\n")|]) == trimmed
  {
    assert Lead(trimmed + "\n") == trimmed + "\n\n";
    assert (Lead(trimmed + "\n") + rest)[..|Lead(trimmed + "\n")|] == trimmed + "\n\n";
    TrimEndAppendWhitespace(trimmed, "\n\n");
  }

  /** The text the replacement produces is left alone by the next replacement with the
      same block. */
  lemma AnchoredReplaceFixed(before: string, block: string, after: string)
    requires SurroundParts(before, block, after)
    ensures var s := Surround(before, block, after);
      ReplaceOrAppendBlockAnchored(s, block) == s
  {
    var s := Surround(before, block, after);
    var lead := |Lead(before)|;
    var end := lead + IndexOf(block, BlockEnd);
    SurroundStart(before, block, after);
    SurroundEnd(before, block, after, end);
    AnchoredReplaceCase(s, block, lead, end);
    SurroundReplaced(before, block, after, end);
  }

  /** The same for the function as written, when the leading part has no end marker
      either. */
  lemma ReplaceFixed(before: string, block: string, after: string)
    requires SurroundParts(before, block, after)
    requires Unmarked(before, BlockEnd)
    ensures var s := Surround(before, block, after);
      ReplaceOrAppendBlock(s, block) == s
  {
    var s := Surround(before, block, after);
    var lead := |Lead(before)|;
    var end := lead + IndexOf(block, BlockEnd);
    SurroundStart(before, block, after);
    SurroundEnd(before, block, after, end);
    ReplaceCase(s, block, lead, end);
    SurroundReplaced(before, block, after, end);
  }

  /** The end-trimmed text before the first occurrence of a marker has no occurrence
      of it. */
  lemma TrimmedPrefixUnmarked(content: string, marker: string, i: int)
    requires 0 <= i <= |content| && marker != []
    requires forall j :: 0 <= j < i ==> !OccursAt(content, marker, j)
    ensures Unmarked(TrimEnd(content[..i]), marker)
  {
    var before := TrimEnd(content[..i]);
    assert before == content[..|before|];
    forall j | OccursAt(before, marker, j) ensures false {
      OccursInPrefix(content, |before|, marker, j);
    }
  }

  /** The replace case of `replaceOrAppendBlock` as written: the start marker comes
      first and the first end marker after it. */
  ghost predicate Replaces(content: string) {
    var start, end := IndexOf(content, BlockStart), IndexOf(content, BlockEnd);
    0 <= start < end
  }

  /** In its replace case, `replaceOrAppendBlock` gives a text that the same
      replacement leaves unchanged: applying a profile a second time changes nothing. */
  lemma ReplaceIdempotent(content: string, block: string)
    requires ManagedBlock(block) && Replaces(content)
    ensures var r := ReplaceOrAppendBlock(content, block);
      ReplaceOrAppendBlock(r, block) == r
  {
    var start, end := IndexOf(content, BlockStart), IndexOf(content, BlockEnd);
    var before := TrimEnd(content[..start]);
    var after := TrimStart(content[end + |BlockEnd|..]);
    ReplaceCase(content, block, start, end);
    ReplacedOf(content, start, end, block, before, after);
    TrimmedPrefixUnmarked(content, BlockStart, start);
    TrimmedPrefixUnmarked(content, BlockEnd, start);
    ReplaceFixed(before, block, after);
  }

  /** The replace case of the anchored replacement: a start marker, and an end marker
      after it. */
  ghost predicate AnchoredReplaces(content: string) {
    var start := IndexOf(content, BlockStart);
    start >= 0 && IndexOfFrom(content, BlockEnd, start) > start
  }

  /** The same for the anchored replacement, which needs no condition on end markers. */
  lemma AnchoredReplaceIdempotent(content: string, block: string)
    requires ManagedBlock(block) && AnchoredReplaces(content)
    ensures var r := ReplaceOrAppendBlockAnchored(content, block);
      ReplaceOrAppendBlockAnchored(r, block) == r
  {
    var start := IndexOf(content, BlockStart);
    var end := IndexOfFrom(content, BlockEnd, start);
    var before := TrimEnd(content[..start]);
    var after := TrimStart(content[end + |BlockEnd|..]);
    AnchoredReplaceCase(content, block, start, end);
    ReplacedOf(content, start, end, block, before, after);
    TrimmedPrefixUnmarked(content, BlockStart, start);
    AnchoredReplaceFixed(before, block, after);
  }

  /** An end marker comes first: either there is no start marker, or it follows the
      first end marker (an end marker left over, a start line deleted by hand). */
  ghost predicate StrayEnd(content: string) {
    var start, end := IndexOf(content, BlockStart), IndexOf(content, BlockEnd);
    end >= 0 && (start < 0 || end < start)
  }

  /** With a stray end marker `replaceOrAppendBlock` appends, and the marker survives
      the trimming. */
  lemma StrayEndAppends(content: string, block: string)
    requires StrayEnd(content)
    ensures var trimmed := TrimEnd(content);
      && |trimmed| >= IndexOf(content, BlockEnd) + |BlockEnd|
      && ReplaceOrAppendBlock(content, block) == trimmed + "\n\n" + block
  {
    MarkerFacts();
    var end := IndexOf(content, BlockEnd);
    CharOfOccurrence(content, BlockEnd, end, end + 16);
    assert content[end..end + |BlockEnd|][16] == BlockEnd[16];
    TrimEndKeeps(content, end + 16);
  }

  /** The stray end marker is still the first marker after the append. */
  lemma StrayEndPersists(content: string, block: string)
    requires StrayEnd(content)
    ensures StrayEnd(ReplaceOrAppendBlock(content, block))
  {
    StrayEndAppends(content, block);
    var end := IndexOf(content, BlockEnd);
    var trimmed := TrimEnd(content);
    var r := trimmed + "\n\n" + block;
    var n := |trimmed|;
    assert r[..n] == trimmed && trimmed == content[..n];
    // Up to the stray marker, `r` and `content` have the same occurrences.
    forall j | 0 <= j <= end
      ensures OccursAt(r, BlockEnd, j) <==> OccursAt(content, BlockEnd, j)
      ensures OccursAt(r, BlockStart, j) <==> OccursAt(content, BlockStart, j)
    {
      OccursInPrefix(r, n, BlockEnd, j);
      OccursInPrefix(content, n, BlockEnd, j);
      OccursInPrefix(r, n, BlockStart, j);
      OccursInPrefix(content, n, BlockStart, j);
    }
    IndexOfAt(r, BlockEnd, end);
  }

  /** The last character of a block's end marker is not whitespace. */
  lemma BlockEndVisible(block: string)
    requires ManagedBlock(block)
    ensures var e := IndexOf(block, BlockEnd);
      e + 16 < |block| && !IsWhitespace(block[e + 16])
  {
    MarkerFacts();
    var e := IndexOf(block, BlockEnd);
    assert block[e..e + |BlockEnd|][16] == BlockEnd[16];
  }

  /** Trimming the end of an appended text keeps the block up to a visible character. */
  lemma AppendedKeeps(trimmed: string, block: string, i: int)
    requires 0 <= i < |block| && !IsWhitespace(block[i])
    ensures |TrimEnd(trimmed + "\n\n" + block)| > |trimmed| + 2 + i
  {
    var r := trimmed + "\n\n" + block;
    assert r[|trimmed| + 2 + i] == block[i];
    TrimEndKeeps(r, |trimmed| + 2 + i);
  }

  /** `replaceOrAppendBlock` as written never settles on a text with a stray end
      marker: the result has one again, and applying it once more makes the text
      longer, so every further `applyProfile` appends another block. */
  lemma StrayEndKeepsAppending(content: string, block: string)
    requires StrayEnd(content) && ManagedBlock(block)
    ensures var r := ReplaceOrAppendBlock(content, block);
      StrayEnd(r) && |ReplaceOrAppendBlock(r, block)| > |r|
  {
    var trimmed := TrimEnd(content);
    var r := ReplaceOrAppendBlock(content, block);
    StrayEndAppends(content, block);
    StrayEndPersists(content, block);
    // The second application appends again, after the block's own end marker.
    StrayEndAppends(r, block);
    BlockEndVisible(block);
    AppendedKeeps(trimmed, block, IndexOf(block, BlockEnd) + 16);
  }

  /** The anchored replacement, when there is no start marker: the append case. */
  lemma AnchoredAppendCase(content: string, block: string)
    requires IndexOf(content, BlockStart) < 0
    ensures ReplaceOrAppendBlockAnchored(content, block) == Appended(content, block)
  {
  }

  /** The appended text is a joined text: the trimmed content and a newline, if any,
      in front of the block. */
  lemma AppendedShape(content: string, block: string)
    requires block != []
    ensures Appended(content, block) == Surround(Lead(TrimEnd(content)), block, [])
  {
    var trimmed := TrimEnd(content);
    SurroundShape(Lead(trimmed), block, []);
    if trimmed != [] {
      assert Lead(Lead(trimmed)) == trimmed + "\n\n";
      assert block + Trail([]) == block;
    }
  }

  /** The anchored replacement settles on a text without a start marker: the first
      application appends the block after a blank line, the second closes the blank
      line up, and from then on nothing changes. */
  lemma AnchoredSettles(content: string, block: string)
    requires ManagedBlock(block) && Unmarked(content, BlockStart)
    ensures var r1 := ReplaceOrAppendBlockAnchored(content, block);
      var r2 := ReplaceOrAppendBlockAnchored(r1, block);
      && r2 == Surround(TrimEnd(content), block, [])
      && ReplaceOrAppendBlockAnchored(r2, block) == r2
  {
    MarkerFacts();
    var trimmed := TrimEnd(content);
    var r1 := ReplaceOrAppendBlockAnchored(content, block);
    assert IndexOf(content, BlockStart) < 0;
    AnchoredAppendCase(content, block);
    AppendedShape(content, block);
    assert r1 == Surround(Lead(trimmed), block, []);
    assert content[..|content|] == content;
    TrimmedPrefixUnmarked(content, BlockStart, |content|);
    assert Unmarked(trimmed, BlockStart);
    if trimmed == [] {
      AnchoredReplaceFixed([], block, []);
    } else {
      var before := trimmed + "\n";
      assert Lead(trimmed) == before;
      assert Unmarked(before, BlockStart) by {
        forall j | OccursAt(before, BlockStart, j) ensures false {
          assert before == trimmed + ['\n'] + [];
          NoStraddle(trimmed, '\n', [], BlockStart, j);
        }
      }
      var lead := |Lead(before)|;
      var end := lead + IndexOf(block, BlockEnd);
      SurroundStart(before, block, []);
      SurroundEnd(before, block, [], end);
      AnchoredReplaceCase(r1, block, lead, end);
      AppendedReplaced(trimmed, block, end);
      AnchoredReplaceFixed(trimmed, block, []);
    }
  }

  /** A text without a marker keeps lacking it once a newline is added. */
  lemma LeadKeepsUnmarked(text: string, marker: string)
    requires Unmarked(text, marker) && '\n' !in marker && marker != []
    ensures Unmarked(Lead(text), marker)
  {
    LeadUnmarked(text, [], marker);
    assert Lead(text) + [] == Lead(text);
  }

  /** The two markers never occur at the same place. */
  lemma MarkersApart(s: string, i: int)
    ensures !(OccursAt(s, BlockStart, i) && OccursAt(s, BlockEnd, i))
  {
    MarkerFacts();
  }

  /** When the leading part has no end marker, the first end marker of the joined
      text is the block's own, and a start marker comes no later than the block. */
  lemma SurroundEndFirst(before: string, block: string, after: string)
    requires ManagedBlock(block) && Unmarked(before, BlockEnd)
    ensures var s, lead := Surround(before, block, after), |Lead(before)|;
      && 0 <= IndexOf(s, BlockStart) <= lead
      && IndexOf(s, BlockEnd) == lead + IndexOf(block, BlockEnd)
      && IndexOf(block, BlockEnd) > 0
  {
    MarkerFacts();
    ManagedTail(block);
    SurroundShape(before, block, after);
    var lead, rest := Lead(before), block + Trail(after);
    var s := lead + rest;
    var e := IndexOf(block, BlockEnd);
    MarkersApart(block, 0);
    FirstInMiddle(lead, block, Trail(after), BlockEnd, e);
    LeadUnmarked(before, rest, BlockEnd);
    IndexOfAt(s, BlockEnd, |lead| + e);
    FirstInMiddle(lead, block, Trail(after), BlockStart, 0);
    assert OccursAt(s, BlockStart, |lead|);
  }

  /** `replaceOrAppendBlock` as written on a text without an end marker: the block is
      appended, and the result is in the replace case. A start marker left without
      its end marker is then the start of the replaced part. */
  lemma AppendThenReplaces(content: string, block: string)
    requires ManagedBlock(block) && Unmarked(content, BlockEnd)
    ensures Replaces(ReplaceOrAppendBlock(content, block))
  {
    MarkerFacts();
    var trimmed := TrimEnd(content);
    assert IndexOf(content, BlockEnd) < 0;
    AppendedShape(content, block);
    assert ReplaceOrAppendBlock(content, block) == Surround(Lead(trimmed), block, []);
    assert content[..|content|] == content;
    TrimmedPrefixUnmarked(content, BlockEnd, |content|);
    LeadKeepsUnmarked(trimmed, BlockEnd);
    SurroundEndFirst(Lead(trimmed), block, []);
  }

  /** On a text without an end marker, `replaceOrAppendBlock` appends: the text
      before the block ends in a blank line, and the block's end marker is the first
      one. */
  lemma AppendedEndFirst(content: string, block: string)
    requires ManagedBlock(block) && Unmarked(content, BlockEnd)
    ensures var lead := Lead(Lead(TrimEnd(content)));
      && ReplaceOrAppendBlock(content, block) == lead + block
      && IndexOf(ReplaceOrAppendBlock(content, block), BlockEnd) == |lead| + IndexOf(block, BlockEnd)
  {
    MarkerFacts();
    var trimmed := TrimEnd(content);
    assert IndexOf(content, BlockEnd) < 0;
    AppendedShape(content, block);
    ManagedTail(block);
    SurroundShape(Lead(trimmed), block, []);
    assert block + Trail([]) == block;
    assert content[..|content|] == content;
    TrimmedPrefixUnmarked(content, BlockEnd, |content|);
    LeadKeepsUnmarked(trimmed, BlockEnd);
    SurroundEndFirst(Lead(trimmed), block, []);
  }

  /** Trimming the end of a text keeps its first start marker whole: the marker ends
      in a character that is not whitespace. */
  lemma StartBeforeTrimmedEnd(content: string)
    requires Contains(content, BlockStart)
    ensures IndexOf(content, BlockStart) + |BlockStart| <= |TrimEnd(content)|
  {
    MarkerFacts();
    var s0 := IndexOf(content, BlockStart);
    CharOfOccurrence(content, BlockStart, s0, s0 + 16);
    assert content[s0..s0 + |BlockStart|][16] == BlockStart[16];
    TrimEndKeeps(content, s0 + 16);
  }

  /** The first start marker of a text survives the append, still first. */
  lemma AppendedStartKept(content: string, block: string)
    requires Contains(content, BlockStart) && IndexOf(content, BlockEnd) < 0
    ensures var s0, trimmed := IndexOf(content, BlockStart), TrimEnd(content);
      && s0 + |BlockStart| <= |trimmed|
      && ReplaceOrAppendBlock(content, block) == trimmed + "\n\n" + block
      && IndexOf(ReplaceOrAppendBlock(content, block), BlockStart) == s0
      && ReplaceOrAppendBlock(content, block)[..s0] == content[..s0]
  {
    StartBeforeTrimmedEnd(content);
    var s0 := IndexOf(content, BlockStart);
    var trimmed := TrimEnd(content);
    var n := |trimmed|;
    var r1 := ReplaceOrAppendBlock(content, block);
    assert r1 == trimmed + "\n\n" + block;
    assert r1[..n] == trimmed && trimmed == content[..n];
    FirstInCommonPrefix(content, r1, BlockStart, n);
    assert r1[..s0] == r1[..n][..s0];
  }

  /** A start marker left without an end marker claims the rest of the file: the
      first application appends the block, and the second replaces everything from
      that start marker on with the block, so the text after it is dropped. */
  lemma OrphanStartDropsRest(content: string, block: string)
    requires ManagedBlock(block) && Unmarked(content, BlockEnd) && Contains(content, BlockStart)
    ensures var r2 := ReplaceOrAppendBlock(ReplaceOrAppendBlock(content, block), block);
      r2 == Surround(TrimEnd(content[..IndexOf(content, BlockStart)]), block, [])
  {
    ManagedTail(block);
    var s0 := IndexOf(content, BlockStart);
    var r1 := ReplaceOrAppendBlock(content, block);
    AppendedEndFirst(content, block);
    AppendedStartKept(content, block);
    var lead := Lead(Lead(TrimEnd(content)));
    var e := IndexOf(block, BlockEnd);
    var end := |lead| + e;
    assert s0 < |lead| <= end by {
      assert |lead| == |TrimEnd(content)| + 2;
    }
    ReplaceCase(r1, block, s0, end);
    DropPastPrefix(lead, block, e + |BlockEnd|);
    AllWhitespaceTrimStart(block[e + |BlockEnd|..]);
  }

  /** Without a stray end marker, the file either is in the replace case or has no
      end marker at all. */
  lemma NoStrayEndCases(content: string)
    requires !StrayEnd(content)
    ensures Replaces(content) || Unmarked(content, BlockEnd)
  {
    var start, end := IndexOf(content, BlockStart), IndexOf(content, BlockEnd);
    if end >= 0 && !Replaces(content) {
      assert start == end;
      MarkersApart(content, start);
    }
  }

  /** `applyProfile`'s new start-up file: the managed block for the profile and model
      put in place of the old one by `replaceOrAppendBlock` as written, or appended. */
  function ApplyProfileText(existing: string, profile: Profile, model: string): (r: string)
    ensures Contains(r, ProfileBlock(profile, model))
  {
    ReplaceOrAppendBlock(existing, ProfileBlock(profile, model))
  }

  /** Applying the same profile and model again settles: after at most two
      applications the start-up file no longer changes, unless the old file's first
      end marker precedes its first start marker (or it has no start marker), which
      never settles: see `StrayEndKeepsAppending`. */
  lemma ApplyProfileSettles(existing: string, profile: Profile, model: string)
    requires PlainFields(profile, model) && !StrayEnd(existing)
    ensures var r2 := ApplyProfileText(ApplyProfileText(existing, profile, model), profile, model);
      ApplyProfileText(r2, profile, model) == r2
  {
    var block := ProfileBlock(profile, model);
    ProfileBlockManaged(profile, model);
    NoStrayEndCases(existing);
    if Replaces(existing) {
      ReplaceIdempotent(existing, block);
    } else {
      AppendThenReplaces(existing, block);
      ReplaceIdempotent(ReplaceOrAppendBlock(existing, block), block);
    }
  }

  // ---------------------------------------------------------------------------
  // Menu display helpers (`shorten`, `modelPreview`)

  /** `shorten`: a base URL of at most 36 characters as it is, a longer one as its
      first 16 characters, `...` and its last 12. */
  function Shorten(value: string): (r: string)
    ensures |value| <= 36 ==> r == value
    ensures |value| > 36 ==>
      |r| == 31 && r[..16] == value[..16] && r[16..19] == "..." && r[19..] == value[|value| - 12..]
    ensures |r| <= 36
  {
    if |value| <= 36 then value else value[..16] + "..." + value[|value| - 12..]
  }

  /** A shortened value is short enough to be shown as it is. */
  lemma ShortenIdempotent(value: string)
    ensures Shorten(Shorten(value)) == Shorten(value)
  {
  }

  /** The model a preview names: the current one when it is non-empty and listed,
      otherwise the first. */
  function PreviewedModel(models: seq<string>, current: Option<string>): (m: string)
    requires models != []
    ensures m in models
  {
    if current.Some? && current.value != [] && current.value in models then current.value
    else models[0]
  }

  /** `modelPreview`: `-` for no models, the model itself for one, otherwise the
      previewed model followed by ` (+n)` with `n` the number of other models. */
  function ModelPreview(models: seq<string>, current: Option<string>): string {
    if models == [] then "-"
    else if |models| == 1 then models[0]
    else PreviewedModel(models, current) + " (+" + NatToString(|models| - 1) + ")"
  }

  /** What a preview tells the reader: `-` for no models and the model for one;
      for several it opens with a listed model, the current one whenever that is
      non-empty and listed, and the number after its last `+` and before its closing
      parenthesis is the count of the other models. */
  lemma ModelPreviewReadsBack(models: seq<string>, current: Option<string>)
    ensures models == [] ==> ModelPreview(models, current) == "-"
    ensures |models| == 1 ==> ModelPreview(models, current) == models[0]
    ensures |models| >= 2 ==>
      var r, m := ModelPreview(models, current), PreviewedModel(models, current);
      && m in models && |m| < |r| && r[..|m|] == m
      && (current.Some? && current.value != [] && current.value in models ==> m == current.value)
      && var plus := LastIndexOf(r, '+');
         0 <= plus < |r| - 1 && ParseDecimal(r[plus + 1..|r| - 1]) == Some(|models| - 1)
  {
    if |models| >= 2 {
      var m := PreviewedModel(models, current);
      var digits := NatToString(|models| - 1);
      assert ModelPreview(models, current) == m + " (+" + digits + ")";
      CountAfterPlus(m, digits);
      ParseNatToString(|models| - 1);
    }
  }

  /** In `m (+digits)`, the last `+` is the one before the digits. */
  lemma CountAfterPlus(m: string, digits: string)
    requires forall i :: 0 <= i < |digits| ==> IsDigit(digits[i])
    ensures var r := m + " (+" + digits + ")";
      var plus := LastIndexOf(r, '+');
      plus == |m| + 2 && r[..|m|] == m && r[plus + 1..|r| - 1] == digits
  {
    var r := m + " (+" + digits + ")";
    var at := |m| + 2;
    assert r[at] == '+';
    forall j | at < j < |r| ensures r[j] != '+' {
      if j < |r| - 1 {
        assert r[j] == digits[j - at - 1];
      }
    }
    assert r[at + 1..|r| - 1] == digits;
  }

  // ---------------------------------------------------------------------------
  // Saved profiles (`isValidProfile`, `loadProfiles`, `JSON.stringify`)

  /** The items of a JSON array when every one of them is a string. */
  function StringItems(items: seq<Json>): (r: Option<seq<string>>)
    ensures r.Some? <==> forall k :: 0 <= k < |items| ==> items[k].JString?
    ensures r.Some? ==> |r.value| == |items| && forall k :: 0 <= k < |items| ==> items[k] == JString(r.value[k])
  {
    if items == [] then Some([])
    else
      match StringItems(items[1..])
      case None => None
      case Some(rest) =>
        if items[0].JString? then Some([items[0].s] + rest) else None
  }

  /** `isValidProfile`: a truthy value whose name, base URL and token are strings and
      whose models are an array of strings. */
  predicate IsValidProfile(v: Json) {
    && Truthy(v)
    && StringMember(v, "name").Some?
    && StringMember(v, "baseUrl").Some?
    && StringMember(v, "authToken").Some?
    && Member(v, "models").Some? && Member(v, "models").value.JArray?
    && StringItems(Member(v, "models").value.items).Some?
  }

  /** The four members `isValidProfile` reads. */
  const ProfileKeys: set<string> := {"name", "baseUrl", "authToken", "models"}

  /** The other members of a profile are other keys than those four. */
  predicate ExtraApart(p: Profile) {
    forall k :: k in p.extra ==> k !in ProfileKeys
  }

  /** The profile a valid value stands for, with all its other members. */
  function ProfileOf(v: Json): (r: Option<Profile>)
    ensures r.Some? <==> IsValidProfile(v)
    ensures r.Some? ==> StringMember(v, "name") == Some(r.value.name) && ExtraApart(r.value)
  {
    if IsValidProfile(v) then
      Some(Profile(StringMember(v, "name").value, StringMember(v, "baseUrl").value,
                   StringMember(v, "authToken").value,
                   StringItems(Member(v, "models").value.items).value,
                   v.fields - ProfileKeys))
    else None
  }

  function StringsJson(ss: seq<string>): (r: seq<Json>)
    ensures |r| == |ss| && forall k :: 0 <= k < |ss| ==> r[k] == JString(ss[k])
  {
    if ss == [] then [] else [JString(ss[0])] + StringsJson(ss[1..])
  }

  /** A profile as `JSON.stringify` writes it to the profile file. */
  function ProfileJson(p: Profile): Json {
    JObject(p.extra + map["name" := JString(p.name), "baseUrl" := JString(p.baseUrl),
                          "authToken" := JString(p.authToken), "models" := JArray(StringsJson(p.models))])
  }

  /** Every profile the add command writes is read back unchanged. */
  lemma ProfileJsonRoundTrip(p: Profile)
    requires ExtraApart(p)
    ensures ProfileOf(ProfileJson(p)) == Some(p)
  {
    var v := ProfileJson(p);
    var items := StringsJson(p.models);
    var ms := StringItems(items);
    assert ms.Some?;
    assert ms.value == p.models;
    assert v.fields - ProfileKeys == p.extra;
  }

  /** A valid entry of the profile file is written back exactly as it was read,
      other members included. */
  lemma LoadedProfileWrittenBack(v: Json)
    requires IsValidProfile(v)
    ensures ProfileJson(ProfileOf(v).value) == v
  {
    var p := ProfileOf(v).value;
    var items := Member(v, "models").value.items;
    assert StringsJson(p.models) == items;
    assert ProfileJson(p).fields == v.fields;
  }

  /** `data.filter(isValidProfile)`: the valid entries, in file order. */
  function ValidProfiles(items: seq<Json>): (r: seq<Profile>)
    ensures |r| <= |items|
  {
    if items == [] then []
    else
      match ProfileOf(items[0])
      case Some(p) => [p] + ValidProfiles(items[1..])
      case None => ValidProfiles(items[1..])
  }

  /** The loaded list holds exactly the profiles of the valid entries. */
  lemma {:induction false} ValidProfilesMembers(items: seq<Json>, p: Profile)
    ensures p in ValidProfiles(items) <==> exists i :: 0 <= i < |items| && ProfileOf(items[i]) == Some(p)
  {
    if items != [] {
      ValidProfilesMembers(items[1..], p);
      if exists i :: 0 <= i < |items| && ProfileOf(items[i]) == Some(p) {
        var i :| 0 <= i < |items| && ProfileOf(items[i]) == Some(p);
        if i > 0 {
          assert items[1..][i - 1] == items[i];
        }
      }
      if p in ValidProfiles(items[1..]) {
        var i :| 0 <= i < |items[1..]| && ProfileOf(items[1..][i]) == Some(p);
        assert ProfileOf(items[i + 1]) == Some(p);
      }
    }
  }

  /** `loadProfiles` on the parsed file: `None` unless it holds an array. */
  function LoadProfiles(data: Json): (r: Option<seq<Profile>>)
    ensures r.Some? <==> data.JArray?
  {
    if data.JArray? then Some(ValidProfiles(data.items)) else None
  }

  function ProfilesJson(ps: seq<Profile>): (r: seq<Json>)
    ensures |r| == |ps|
  {
    if ps == [] then [] else [ProfileJson(ps[0])] + ProfilesJson(ps[1..])
  }

  /** The profile file written by the add command loads back as the same list. */
  lemma {:induction false} LoadProfilesRoundTrip(ps: seq<Profile>)
    requires forall k :: 0 <= k < |ps| ==> ExtraApart(ps[k])
    ensures LoadProfiles(JArray(ProfilesJson(ps))) == Some(ps)
  {
    LoadSavedItems(ps);
  }

  lemma {:induction false} LoadSavedItems(ps: seq<Profile>)
    requires forall k :: 0 <= k < |ps| ==> ExtraApart(ps[k])
    ensures ValidProfiles(ProfilesJson(ps)) == ps
  {
    if ps != [] {
      var items := ProfilesJson(ps);
      assert items[1..] == ProfilesJson(ps[1..]);
      assert forall k :: 0 <= k < |ps[1..]| ==> ps[1..][k] == ps[k + 1];
      LoadSavedItems(ps[1..]);
      ProfileJsonRoundTrip(ps[0]);
    }
  }

  /** The entries of the profile file that `isValidProfile` accepts, in file order. */
  function ValidEntries(items: seq<Json>): (r: seq<Json>)
    ensures forall k :: 0 <= k < |r| ==> r[k] in items && IsValidProfile(r[k])
  {
    if items == [] then []
    else (if IsValidProfile(items[0]) then [items[0]] else []) + ValidEntries(items[1..])
  }

  /** Loading the file and saving the list writes back exactly its valid entries:
      profiles the add command does not replace keep all their members. */
  lemma {:induction false} LoadedListWrittenBack(items: seq<Json>)
    ensures ProfilesJson(ValidProfiles(items)) == ValidEntries(items)
  {
    if items != [] {
      LoadedListWrittenBack(items[1..]);
      var rest := ValidProfiles(items[1..]);
      if IsValidProfile(items[0]) {
        LoadedProfileWrittenBack(items[0]);
        var ps := [ProfileOf(items[0]).value] + rest;
        assert ValidProfiles(items) == ps;
        assert ps[1..] == rest;
      }
    }
  }

  // ---------------------------------------------------------------------------
  // Adding a profile (`promptAddProfile`, `addClaudeProfile`)

  /** Every part of a list kept by `NonEmpty` is one of its parts. */
  lemma {:induction false} NonEmptyMembers(parts: seq<string>)
    ensures forall k :: 0 <= k < |NonEmpty(parts)| ==> NonEmpty(parts)[k] in parts
  {
    if parts != [] {
      NonEmptyMembers(parts[1..]);
      var r := NonEmpty(parts);
      var rest := NonEmpty(parts[1..]);
      forall k | 0 <= k < |r| ensures r[k] in parts {
        if parts[0] != [] && k > 0 {
          assert r[k] == rest[k - 1];
        } else if parts[0] == [] {
          assert r[k] == rest[k];
        }
      }
    }
  }

  /** A list without empty parts is kept whole. */
  lemma {:induction false} NonEmptyKeepsAll(parts: seq<string>)
    requires forall k :: 0 <= k < |parts| ==> parts[k] != []
    ensures NonEmpty(parts) == parts
  {
    if parts != [] {
      NonEmptyKeepsAll(parts[1..]);
      assert parts == [parts[0]] + parts[1..];
    }
  }

  function TrimAll(parts: seq<string>): (r: seq<string>)
    ensures |r| == |parts| && forall k :: 0 <= k < |parts| ==> r[k] == Trim(parts[k])
  {
    if parts == [] then [] else [Trim(parts[0])] + TrimAll(parts[1..])
  }

  /** A model name as the custom-profile prompt delivers it: non-empty, without a
      comma and without whitespace at either end. */
  predicate ModelName(m: string) {
    m != [] && ',' !in m && !IsWhitespace(m[0]) && !IsWhitespace(m[|m| - 1])
  }

  lemma TrimmedModelName(part: string)
    requires ',' !in part && Trim(part) != []
    ensures ModelName(Trim(part))
  {
    TrimKeepsOut(part, ',');
  }

  /** The custom models answer: split on commas, each item trimmed, empty items dropped. */
  function ParseModels(input: string): seq<string> {
    NonEmpty(TrimAll(SplitOn(input, ',')))
  }

  /** Every model the custom prompt keeps is a proper model name. */
  lemma ParseModelsNames(input: string)
    ensures forall k :: 0 <= k < |ParseModels(input)| ==> ModelName(ParseModels(input)[k])
  {
    var parts := SplitOn(input, ',');
    var trimmed := TrimAll(parts);
    var r := NonEmpty(trimmed);
    assert forall k :: 0 <= k < |r| ==> r[k] in trimmed by {
      NonEmptyMembers(trimmed);
    }
    forall k | 0 <= k < |r| ensures ModelName(r[k]) {
      var i :| 0 <= i < |trimmed| && trimmed[i] == r[k];
      var part := parts[i];
      assert ',' !in part;
      assert r[k] == Trim(part);
      TrimmedModelName(part);
    }
  }

  /** Trimming leaves already trimmed parts alone. */
  lemma {:induction false} TrimAllKeeps(parts: seq<string>)
    requires forall k :: 0 <= k < |parts| ==> Trim(parts[k]) == parts[k]
    ensures TrimAll(parts) == parts
  {
    if parts != [] {
      TrimAllKeeps(parts[1..]);
      assert parts == [parts[0]] + parts[1..];
    }
  }

  /** Trimmed, non-empty, comma-free parts joined with commas parse back to themselves. */
  lemma ParseModelsOfParts(parts: seq<string>)
    requires parts != []
    requires forall k :: 0 <= k < |parts| ==> parts[k] != [] && ',' !in parts[k] && Trim(parts[k]) == parts[k]
    ensures ParseModels(Join(parts, [','])) == parts
  {
    SplitOnJoin(parts, ',');
    TrimAllKeeps(parts);
    NonEmptyKeepsAll(parts);
  }

  /** Model names typed with commas between them come back as the same list. */
  lemma ParseModelsJoin(models: seq<string>)
    requires models != [] && forall k :: 0 <= k < |models| ==> ModelName(models[k])
    ensures ParseModels(Join(models, [','])) == models
  {
    ModelNamesFixed(models);
    ParseModelsOfParts(models);
  }

  lemma ModelNamesFixed(models: seq<string>)
    requires forall k :: 0 <= k < |models| ==> ModelName(models[k])
    ensures forall k :: 0 <= k < |models| ==> models[k] != [] && ',' !in models[k] && Trim(models[k]) == models[k]
  {
    forall k | 0 <= k < |models| ensures models[k] != [] && ',' !in models[k] && Trim(models[k]) == models[k] {
      TrimmedFixed(models[k]);
    }
  }

  /** The custom branch of `promptAddProfile`: every answer must be non-empty
      (a cancelled prompt gives none), the model list must keep at least one model,
      and the text answers are trimmed. */
  function CustomProfile(name: string, baseUrl: string, authToken: string, models: string): (r: Option<Profile>)
    ensures r.Some? <==> name != [] && baseUrl != [] && authToken != [] && models != [] && ParseModels(models) != []
    ensures r.Some? ==> r.value.models == ParseModels(models) && r.value.models != [] && r.value.extra == map[]
  {
    if name == [] || baseUrl == [] || authToken == [] || models == [] then None
    else
      var ms := ParseModels(models);
      if ms == [] then None
      else Some(Profile(Trim(name), Trim(baseUrl), Trim(authToken), ms, map[]))
  }

  /** A profile whose answers were typed as they are stored comes back from the
      custom prompt unchanged. */
  lemma CustomProfileRoundTrip(p: Profile)
    requires forall k :: 0 <= k < |p.models| ==> ModelName(p.models[k])
    requires p.models != [] && p.extra == map[]
    requires p.name != [] && !IsWhitespace(p.name[0]) && !IsWhitespace(p.name[|p.name| - 1])
    requires p.baseUrl != [] && !IsWhitespace(p.baseUrl[0]) && !IsWhitespace(p.baseUrl[|p.baseUrl| - 1])
    requires p.authToken != [] && !IsWhitespace(p.authToken[0]) && !IsWhitespace(p.authToken[|p.authToken| - 1])
    ensures CustomProfile(p.name, p.baseUrl, p.authToken, Join(p.models, [','])) == Some(p)
  {
    var models := Join(p.models, [',']);
    ParseModelsJoin(p.models);
    TrimmedFixed(p.name);
    TrimmedFixed(p.baseUrl);
    TrimmedFixed(p.authToken);
    assert p == Profile(Trim(p.name), Trim(p.baseUrl), Trim(p.authToken), ParseModels(models), map[]);
  }

  /** The preset providers offered before the custom entry; their token is asked for. */
  const Presets: seq<Profile> := [
    Profile("Anthropic", "https://api.anthropic.com", "",
            ["claude-3-5-sonnet-20241022", "claude-3-5-haiku-20241022"], map[]),
    Profile("Volcengine", "https://ark.cn-beijing.volces.com/api/coding", "",
            ["doubao-seed-code", "glm4.7", "deepseek-v3.2", "kimi-k2-thinking", "kimi-k2.5"], map[]),
    Profile("BigModel", "https://open.bigmodel.cn/api/anthropic", "", ["glm4.7"], map[]),
    Profile("MiniMax", "https://api.minimaxi.com/anthropic", "", ["MiniMax-M2.1"], map[])
  ]

  /** `profiles.findIndex(p => p.name === name)`. */
  function FindProfile(profiles: seq<Profile>, name: string): (r: int)
    ensures -1 <= r < |profiles|
    ensures r >= 0 ==> profiles[r].name == name
    ensures forall j :: 0 <= j < |profiles| && (r < 0 || j < r) ==> profiles[j].name != name
  {
    if profiles == [] then -1
    else if profiles[0].name == name then 0
    else
      var k := FindProfile(profiles[1..], name);
      if k < 0 then -1 else k + 1
  }

  /** The preset branch of `promptAddProfile`: the chosen preset with the trimmed
      token, nothing for an unknown preset or an empty token. */
  function PresetProfile(presetName: string, token: string): (r: Option<Profile>)
    ensures r.Some? <==> FindProfile(Presets, presetName) >= 0 && token != []
    ensures r.Some? ==> var preset := Presets[FindProfile(Presets, presetName)];
      r.value == preset.(authToken := Trim(token))
  {
    var i := FindProfile(Presets, presetName);
    if i < 0 || token == [] then None else Some(Presets[i].(authToken := Trim(token)))
  }

  /** The profile list after `addClaudeProfile` saves `profile`: in place of the
      first profile of the same name, or appended. */
  function Added(profiles: seq<Profile>, profile: Profile): seq<Profile> {
    var i := FindProfile(profiles, profile.name);
    if i >= 0 then profiles[i := profile] else profiles + [profile]
  }

  /** No two profiles share a name. */
  predicate UniqueNames(profiles: seq<Profile>) {
    forall i, j :: 0 <= i < j < |profiles| ==> profiles[i].name != profiles[j].name
  }

  /** After saving, a look-up by the profile's name finds the profile, and the list
      grows only for a new name. */
  lemma AddedFindsProfile(profiles: seq<Profile>, profile: Profile)
    ensures var r := Added(profiles, profile);
      && FindProfile(r, profile.name) >= 0 && r[FindProfile(r, profile.name)] == profile
      && |r| == |profiles| + (if FindProfile(profiles, profile.name) >= 0 then 0 else 1)
  {
    var i := FindProfile(profiles, profile.name);
    var r := Added(profiles, profile);
    var at := if i >= 0 then i else |profiles|;
    assert r[at] == profile;
    assert forall j :: 0 <= j < at ==> r[j] == profiles[j];
    assert FindProfile(r, profile.name) == at;
  }

  /** Saving leaves every profile of another name where it was. */
  lemma AddedKeepsOthers(profiles: seq<Profile>, profile: Profile, k: int)
    requires 0 <= k < |profiles| && profiles[k].name != profile.name
    ensures k < |Added(profiles, profile)| && Added(profiles, profile)[k] == profiles[k]
  {
  }

  /** Saving keeps the names unique. */
  lemma AddedUnique(profiles: seq<Profile>, profile: Profile)
    requires UniqueNames(profiles)
    ensures UniqueNames(Added(profiles, profile))
  {
    var i := FindProfile(profiles, profile.name);
    var r := Added(profiles, profile);
    forall a, b | 0 <= a < b < |r| ensures r[a].name != r[b].name {
      if i < 0 && b == |profiles| {
        assert r[a] == profiles[a];
      }
    }
  }

  /** The saved profile list of `addClaudeProfile`, updated in place. */
  class ProfileStore {
    var profiles: seq<Profile>

    constructor (profiles: seq<Profile>)
      ensures this.profiles == profiles
    {
      this.profiles := profiles;
    }

    /** Saves `profile`: a new name is appended; an existing name is replaced at its
        index when overwriting is confirmed, and nothing changes otherwise. */
    method Add(profile: Profile, overwrite: bool) returns (saved: bool)
      modifies this
      ensures saved <==> FindProfile(old(profiles), profile.name) < 0 || overwrite
      ensures profiles == if saved then Added(old(profiles), profile) else old(profiles)
    {
      var existsIndex := FindProfile(profiles, profile.name);
      if existsIndex >= 0 {
        if !overwrite {
          return false;
        }
        profiles := profiles[existsIndex := profile];
      } else {
        profiles := profiles + [profile];
      }
      return true;
    }
  }
}
