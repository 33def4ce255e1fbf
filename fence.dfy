/** The markdown fence extractor `strip_sql_markdown`: the first match of
    the pattern ```` ```(?:\w+)?\s*(.*?)``` ```` (IGNORECASE, DOTALL) located
    with `re.search`, its group trimmed; with no match, the trimmed input.

    Backticks are neither word characters nor whitespace, so the greedy tag
    and whitespace runs never swallow part of a closing fence; the scan below
    (leftmost opening fence, greedy tag, greedy whitespace, first closing
    fence) is what the regular-expression engine computes. The lemmas
    `BacktrackingCannotHelp` and `LeftmostOpeningDecides` prove this against
    the engine's try-every-start search. */
module Fence {
  import opened Wrappers
  import opened Text

  /** A run of three backticks starts at index `k`. */
  predicate IsFence(s: string, k: int) {
    0 <= k && k + 3 <= |s| && s[k] == '`' && s[k + 1] == '`' && s[k + 2] == '`'
  }

  /** The leftmost fence at or after `from`. */
  function FindFence(s: string, from: nat): (r: Option<nat>)
    ensures r.Some? ==> from <= r.value && IsFence(s, r.value)
    ensures r.Some? ==> forall k :: from <= k < r.value ==> !IsFence(s, k)
    ensures r.None? ==> forall k :: from <= k ==> !IsFence(s, k)
    decreases |s| - from
  {
    if from + 3 > |s| then None
    else if IsFence(s, from) then Some(from)
    else FindFence(s, from + 1)
  }

  /** The opening fence of a match, the end of its `(?:\w+)?` tag, the start
      of the captured group (after `\s*`) and the closing fence. */
  datatype Block = Block(open: nat, tagEnd: nat, body: nat, close: nat)

  /** `blk` is the match `re.search` reports: the leftmost opening fence,
      greedy tag, greedy whitespace, and the first fence after them. */
  predicate IsBlock(s: string, blk: Block) {
    && IsFence(s, blk.open)
    && IsFence(s, blk.close)
    && blk.open + 3 <= blk.tagEnd <= blk.body <= blk.close
    && (forall k :: 0 <= k < blk.open ==> !IsFence(s, k))
    && (forall k :: blk.open + 3 <= k < blk.tagEnd ==> IsWordChar(s[k]))
    && !IsWordChar(s[blk.tagEnd])
    && (forall k :: blk.tagEnd <= k < blk.body ==> IsSpace(s[k]))
    && !IsSpace(s[blk.body])
    && (forall k :: blk.body <= k < blk.close ==> !IsFence(s, k))
  }

  /** Where the group starts for an opening fence at `open`. */
  function BodyStart(s: string, open: nat): (b: nat)
    requires IsFence(s, open)
    ensures open + 3 <= b <= |s|
    ensures forall k :: open + 3 <= k < b ==> s[k] != '`'
  {
    SkipRun(s, SkipRun(s, open + 3, IsWordChar), IsSpace)
  }

  /** The match of the pattern in `s`, if there is one. */
  function LocateBlock(s: string): (r: Option<Block>)
    ensures r.Some? ==> IsBlock(s, r.value)
  {
    match FindFence(s, 0)
    case None => None
    case Some(o) =>
      var w := SkipRun(s, o + 3, IsWordChar);
      var b := SkipRun(s, w, IsSpace);
      match FindFence(s, b)
      case None => None
      case Some(c) => Some(Block(o, w, b, c))
  }

  /** The captured group `match.group(1)`, before trimming. */
  function Group(s: string, blk: Block): string
    requires IsBlock(s, blk)
  {
    s[blk.body..blk.close]
  }

  /** `strip_sql_markdown(text)`. */
  function StripSqlMarkdown(text: string): (r: string)
    ensures r == [] || (!IsSpace(r[0]) && !IsSpace(r[|r| - 1]))
  {
    match LocateBlock(text)
    case Some(blk) => Strip(Group(text, blk))
    case None => Strip(text)
  }

  /** Any position satisfying the description of a match is the one the
      scan finds: there is exactly one match. */
  lemma LocateBlockComplete(s: string, blk: Block)
    requires IsBlock(s, blk)
    ensures LocateBlock(s) == Some(blk)
  {
    assert FindFence(s, 0) == Some(blk.open);
    var w := SkipRun(s, blk.open + 3, IsWordChar);
    assert w == blk.tagEnd;
    var b := SkipRun(s, w, IsSpace);
    assert b == blk.body;
    assert FindFence(s, b) == Some(blk.close);
  }

  /** Any fence followed, at least three characters later, by another fence
      gives a match: its opening fence is at or before the first of the two
      and its closing fence at or before the second. */
  lemma FencePairHasMatch(s: string, o: nat, c: nat)
    requires IsFence(s, o) && IsFence(s, c) && o + 3 <= c
    ensures LocateBlock(s).Some?
    ensures LocateBlock(s).value.open <= o && LocateBlock(s).value.close <= c
  {
    var o0 := FindFence(s, 0).value;
    var b := BodyStart(s, o0);
    assert o0 <= o;
    assert c >= b;
    assert FindFence(s, b).Some?;
  }

  /** The positions of the match pin down the result: the trimmed text
      between the end of the leftmost opening fence's greedy tag and
      whitespace and the first fence after that point. `FencePairHasMatch`
      shows such positions exist whenever a fence pair does. */
  lemma ExtractsFirstFencedBlock(s: string, open: nat, tagEnd: nat, body: nat, close: nat)
    requires IsFence(s, open) && IsFence(s, close)
    requires open + 3 <= tagEnd <= body <= close
    requires forall k :: 0 <= k < open ==> !IsFence(s, k)
    requires forall k :: open + 3 <= k < tagEnd ==> IsWordChar(s[k])
    requires !IsWordChar(s[tagEnd])
    requires forall k :: tagEnd <= k < body ==> IsSpace(s[k])
    requires !IsSpace(s[body])
    requires forall k :: body <= k < close ==> !IsFence(s, k)
    ensures StripSqlMarkdown(s) == Strip(s[body..close])
  {
    LocateBlockComplete(s, Block(open, tagEnd, body, close));
  }

  /** With no pair of fences far enough apart to
      enclose a group, the result is the trimmed input. */
  lemma WithoutFencePairKeepsText(s: string)
    requires forall o, c :: IsFence(s, o) && IsFence(s, c) ==> c < o + 3
    ensures StripSqlMarkdown(s) == Strip(s)
  {
  }

  /** A `sql`-tagged block yields its statement. */
  lemma TaggedBlockExample(s: string)
    requires s == "```sql\nSELECT 1\n```"
    ensures StripSqlMarkdown(s) == "SELECT 1"
  {
    TaggedBlockGroup(s);
    StripTrailing("SELECT 1", "\n");
  }

  lemma TaggedBlockGroup(s: string)
    requires s == "```sql\nSELECT 1\n```"
    ensures StripSqlMarkdown(s) == Strip("SELECT 1" + "\n")
  {
    assert s[7..16] == "SELECT 1" + "\n";
    ExtractsFirstFencedBlock(s, 0, 6, 7, 16);
  }

  /** The greedy tag swallows an untagged statement's first word:
      ```` ```SELECT 1``` ```` yields `1`. */
  lemma GreedyTagExample(s: string)
    requires s == "```SELECT 1```"
    ensures StripSqlMarkdown(s) == "1"
  {
    GreedyTagGroup(s);
    StripSingle('1');
  }

  /** A single character that is not whitespace is its own trimming. */
  lemma StripSingle(c: char)
    requires !IsSpace(c)
    ensures Strip([c]) == [c]
  {
    StripUnique([c], 0, 1);
  }

  lemma GreedyTagGroup(s: string)
    requires s == "```SELECT 1```"
    ensures StripSqlMarkdown(s) == Strip(['1'])
  {
    assert s[10..11] == ['1'];
    assert forall k :: 3 <= k < 9 ==> IsWordChar(s[k]);
    assert !IsWordChar(s[9]) && !IsSpace(s[10]);
    ExtractsFirstFencedBlock(s, 0, 9, 10, 11);
  }

  /** A string without fences keeps none after `strip()`. */
  lemma StripKeepsNoFence(x: string)
    requires forall k :: !IsFence(x, k)
    ensures forall k :: !IsFence(Strip(x), k)
  {
    var a := StripStart(x);
    forall k | 0 <= k ensures IsFence(Strip(x), k) ==> IsFence(x, a + k) {
    }
  }

  /** The result of a match holds no three backticks. */
  lemma MatchResultHasNoFence(s: string)
    requires LocateBlock(s).Some?
    ensures forall k :: !IsFence(StripSqlMarkdown(s), k)
    ensures !Contains(StripSqlMarkdown(s), "```")
  {
    var blk := LocateBlock(s).value;
    var g := Group(s, blk);
    forall k | 0 <= k ensures IsFence(g, k) ==> IsFence(s, blk.body + k) {
    }
    StripKeepsNoFence(g);
    var r := StripSqlMarkdown(s);
    forall i | OccursAt(r, "```", i) ensures IsFence(r, i) {
      assert r[i..i + 3][0] == r[i] && r[i..i + 3][1] == r[i + 1] && r[i..i + 3][2] == r[i + 2];
    }
  }

  /** The fences of a string padded with whitespace lie in the unpadded
      part `s[i..j]`, at the same places shifted by `i`. */
  lemma WindowFences(s: string, i: nat, j: nat)
    requires i <= j <= |s|
    requires forall k :: 0 <= k < i ==> IsSpace(s[k])
    requires forall k :: j <= k < |s| ==> IsSpace(s[k])
    ensures forall m :: IsFence(s, m) ==> i <= m && IsFence(s[i..j], m - i)
    ensures forall k :: IsFence(s[i..j], k) ==> IsFence(s, k + i)
  {
    forall m | IsFence(s, m) ensures i <= m && IsFence(s[i..j], m - i) {
      assert !IsSpace(s[m]) && !IsSpace(s[m + 2]);
    }
  }

  /** A match in the padded string is a match in the unpadded part. */
  lemma WindowBlockInward(s: string, i: nat, j: nat, b: Block)
    requires i <= j <= |s|
    requires forall k :: 0 <= k < i ==> IsSpace(s[k])
    requires forall k :: j <= k < |s| ==> IsSpace(s[k])
    requires IsBlock(s, b)
    ensures i <= b.open && IsBlock(s[i..j], Block(b.open - i, b.tagEnd - i, b.body - i, b.close - i))
  {
    WindowFences(s, i, j);
    var r := s[i..j];
    var b' := Block(b.open - i, b.tagEnd - i, b.body - i, b.close - i);
    assert IsFence(r, b'.open) && IsFence(r, b'.close);
    forall k | 0 <= k < b'.open ensures !IsFence(r, k) {
      assert !IsFence(s, k + i);
    }
    forall k | b'.body <= k < b'.close ensures !IsFence(r, k) {
      assert !IsFence(s, k + i);
    }
    assert forall k :: b'.open + 3 <= k < b'.body ==> r[k] == s[k + i];
  }

  /** A match in the unpadded part is a match in the padded string. */
  lemma WindowBlockOutward(s: string, i: nat, j: nat, b': Block)
    requires i <= j <= |s|
    requires forall k :: 0 <= k < i ==> IsSpace(s[k])
    requires forall k :: j <= k < |s| ==> IsSpace(s[k])
    requires IsBlock(s[i..j], b')
    ensures IsBlock(s, Block(b'.open + i, b'.tagEnd + i, b'.body + i, b'.close + i))
  {
    WindowFences(s, i, j);
    var r := s[i..j];
    var b := Block(b'.open + i, b'.tagEnd + i, b'.body + i, b'.close + i);
    forall k | 0 <= k < b.open ensures IsFence(s, k) ==> IsFence(r, k - i) {
    }
    forall k | b.body <= k < b.close ensures IsFence(s, k) ==> IsFence(r, k - i) {
    }
    assert forall k :: b.open + 3 <= k < b.body ==> r[k - i] == s[k];
  }

  /** A match in the padded string gives the same group in the unpadded
      part. */
  lemma WindowMatchInward(s: string, i: nat, j: nat, b: Block)
    requires i <= j <= |s|
    requires forall k :: 0 <= k < i ==> IsSpace(s[k])
    requires forall k :: j <= k < |s| ==> IsSpace(s[k])
    requires IsBlock(s, b)
    ensures LocateBlock(s[i..j]).Some? && Group(s, b) == Group(s[i..j], LocateBlock(s[i..j]).value)
  {
    var r := s[i..j];
    WindowBlockInward(s, i, j, b);
    var b' := Block(b.open - i, b.tagEnd - i, b.body - i, b.close - i);
    LocateBlockComplete(r, b');
    SliceOfSlice(s, i, j, b'.body, b'.close);
  }

  /** A match in the unpadded part means a match in the padded string. */
  lemma WindowMatchOutward(s: string, i: nat, j: nat)
    requires i <= j <= |s|
    requires forall k :: 0 <= k < i ==> IsSpace(s[k])
    requires forall k :: j <= k < |s| ==> IsSpace(s[k])
    ensures LocateBlock(s[i..j]).Some? ==> LocateBlock(s).Some?
  {
    var r := s[i..j];
    if LocateBlock(r).Some? {
      var b' := LocateBlock(r).value;
      WindowBlockOutward(s, i, j, b');
      LocateBlockComplete(s, Block(b'.open + i, b'.tagEnd + i, b'.body + i, b'.close + i));
    }
  }

  /** The match in a string padded with whitespace on either side is the
      match in the unpadded part, shifted by the left padding. */
  lemma WindowBlock(s: string, i: nat, j: nat)
    requires i <= j <= |s|
    requires forall k :: 0 <= k < i ==> IsSpace(s[k])
    requires forall k :: j <= k < |s| ==> IsSpace(s[k])
    ensures LocateBlock(s).Some? <==> LocateBlock(s[i..j]).Some?
    ensures LocateBlock(s).Some? ==> Group(s, LocateBlock(s).value) == Group(s[i..j], LocateBlock(s[i..j]).value)
  {
    WindowMatchOutward(s, i, j);
    if LocateBlock(s).Some? {
      WindowMatchInward(s, i, j, LocateBlock(s).value);
    }
  }

  /** Trimming the model's reply before extracting (lines 129 and 216 call
      `strip_sql_markdown(content.strip())`) changes nothing. */
  lemma PreStripIsRedundant(s: string)
    ensures StripSqlMarkdown(Strip(s)) == StripSqlMarkdown(s)
  {
    WindowBlock(s, StripStart(s), StripEnd(s));
    if LocateBlock(s).None? {
      StripIdempotent(s);
    }
  }

  /** Extraction is idempotent. */
  lemma StripSqlMarkdownIdempotent(s: string)
    ensures StripSqlMarkdown(StripSqlMarkdown(s)) == StripSqlMarkdown(s)
  {
    if LocateBlock(s).Some? {
      MatchedResultIsFixed(s);
    } else {
      PreStripIsRedundant(s);
    }
  }

  /** A matched result holds no fence and is already trimmed, so the
      extractor returns it as it is. */
  lemma MatchedResultIsFixed(s: string)
    requires LocateBlock(s).Some?
    ensures StripSqlMarkdown(StripSqlMarkdown(s)) == StripSqlMarkdown(s)
  {
    var r := StripSqlMarkdown(s);
    MatchResultHasNoFence(s);
    assert FindFence(r, 0).None?;
    assert LocateBlock(r).None?;
    StripUnique(r, 0, |r|);
    assert Strip(r) == r;
  }

  /** The search `re.search` performs: try each start position from `p` in
      turn; at a position holding three backticks the pattern matches iff a
      fence follows the greedy tag and whitespace, capturing up to the first
      such fence. */
  function SearchFrom(s: string, p: nat): Option<string>
    decreases |s| - p
  {
    if p + 3 > |s| then None
    else if IsFence(s, p) && FindFence(s, BodyStart(s, p)).Some? then
      Some(s[BodyStart(s, p)..FindFence(s, BodyStart(s, p)).value])
    else SearchFrom(s, p + 1)
  }

  /** Every shorter tag or whitespace run the engine may backtrack to
      reaches the same closing fence as the greedy one. */
  lemma BacktrackingCannotHelp(s: string, open: nat, w: nat, g: nat)
    requires IsFence(s, open)
    requires open + 3 <= w <= g <= |s|
    requires forall k :: open + 3 <= k < w ==> IsWordChar(s[k])
    requires forall k :: w <= k < g ==> IsSpace(s[k])
    ensures g <= BodyStart(s, open)
    ensures FindFence(s, g) == FindFence(s, BodyStart(s, open))
  {
    var W := SkipRun(s, open + 3, IsWordChar);
    assert w <= W;
    var B := BodyStart(s, open);
    assert g <= B;
    assert forall k :: g <= k < B ==> !IsFence(s, k);
  }

  lemma {:induction false} SearchSkipsToFence(s: string, p: nat, o: nat)
    requires p <= o
    requires forall k :: p <= k < o ==> !IsFence(s, k)
    ensures SearchFrom(s, p) == SearchFrom(s, o)
    decreases o - p
  {
    if p < o && p + 3 <= |s| {
      SearchSkipsToFence(s, p + 1, o);
    }
  }

  lemma {:induction false} SearchFailsAfter(s: string, o: nat, p: nat)
    requires IsFence(s, o) && FindFence(s, BodyStart(s, o)).None?
    requires o < p
    ensures SearchFrom(s, p) == None
    decreases |s| - p
  {
    if p + 3 <= |s| {
      if IsFence(s, p) {
        var B := BodyStart(s, o);
        assert p < B;
        assert p + 2 >= B;
      }
      SearchFailsAfter(s, o, p + 1);
    }
  }

  /** Only the leftmost opening fence matters: if it has no closing fence
      after its tag, no later start position matches either, so the scan
      agrees with `re.search`. */
  lemma LeftmostOpeningDecides(s: string)
    ensures SearchFrom(s, 0) == match LocateBlock(s)
                                case Some(blk) => Some(Group(s, blk))
                                case None => None
  {
    match FindFence(s, 0)
    case None =>
      SearchSkipsToFence(s, 0, |s|);
    case Some(o) =>
      SearchSkipsToFence(s, 0, o);
      if FindFence(s, BodyStart(s, o)).None? {
        SearchFailsAfter(s, o, o + 1);
      }
  }
}
