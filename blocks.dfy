/**
 * The line-to-block converter `markdown_to_notion_blocks` (main.py:76-134): each
 * `'\n'`-separated line becomes at most one block, chosen by the first prefix rule
 * that matches; a blank line that matches none is skipped.
 */
module Blocks {
  import opened Wrappers
  import opened PyStrings

  /** The six block kinds the converter emits, each with its text payload. */
  datatype Block =
    | H1(text: string)
    | H2(text: string)
    | H3(text: string)
    | Bullet(text: string)
    | Numbered(text: string)
    | Para(text: string)

  /** The block for one line, or None when the line is skipped (main.py:84-133). */
  function LineToBlock(line: string): Option<Block>
  {
    if StartsWith(line, "# ") then Some(H1(line[2..]))
    else if StartsWith(line, "## ") then Some(H2(line[3..]))
    else if StartsWith(line, "### ") then Some(H3(line[4..]))
    else if StartsWith(line, "- ") then Some(Bullet(line[2..]))
    else if StartsWith(line, "1. ") then Some(Numbered(line[3..]))
    else if Strip(line) == "" then None
    else Some(Para(line))
  }

  /** The markdown line a block stands for: its prefix followed by its text. */
  function Render(b: Block): string
  {
    match b
    case H1(t) => "# " + t
    case H2(t) => "## " + t
    case H3(t) => "### " + t
    case Bullet(t) => "- " + t
    case Numbered(t) => "1. " + t
    case Para(t) => t
  }

  /** A line that no prefix rule claims. */
  predicate Unprefixed(line: string)
  {
    !StartsWith(line, "# ") && !StartsWith(line, "## ") && !StartsWith(line, "### ") &&
    !StartsWith(line, "- ") && !StartsWith(line, "1. ")
  }

  /** Every prefix starts with `#`, `-` or `1`, so a line a prefix rule claims is not blank. */
  lemma PrefixedNotBlank(line: string)
    requires !Unprefixed(line)
    ensures !IsBlank(line)
  {
    assert |line| > 0 && (line[0] == '#' || line[0] == '-' || line[0] == '1') by {
      if StartsWith(line, "# ") || StartsWith(line, "## ") || StartsWith(line, "### ") {
        assert line[..2][0] == line[0] == '#';
      } else if StartsWith(line, "- ") {
        assert line[..2][0] == line[0];
      } else {
        assert line[..3][0] == line[0];
      }
    }
    assert !IsWhitespace(line[0]);
  }

  /**
   * A line is skipped exactly when no prefix matches and it is blank. Since no
   * prefixed line is blank, the order of the two checks has no effect: a line
   * is skipped exactly when it is blank.
   */
  lemma SkippedIffBlank(line: string)
    ensures LineToBlock(line) == None <==> Unprefixed(line) && IsBlank(line)
    ensures LineToBlock(line) == None <==> IsBlank(line)
  {
    if Unprefixed(line) {
      StripEmptyIffBlank(line);
      assert LineToBlock(line) == if Strip(line) == "" then None else Some(Para(line));
    } else {
      PrefixedNotBlank(line);
    }
  }

  /** No information is lost: a line that yields a block is that block rendered. */
  lemma RenderLineToBlock(line: string)
    requires LineToBlock(line).Some?
    ensures Render(LineToBlock(line).value) == line
  {
    if StartsWith(line, "# ") {
      assert line == line[..2] + line[2..];
    } else if StartsWith(line, "## ") {
      assert line == line[..3] + line[3..];
    } else if StartsWith(line, "### ") {
      assert line == line[..4] + line[4..];
    } else if StartsWith(line, "- ") {
      assert line == line[..2] + line[2..];
    } else if StartsWith(line, "1. ") {
      assert line == line[..3] + line[3..];
    }
  }

  /** A line whose first character starts no prefix is claimed by no prefix rule. */
  lemma FirstCharUnprefixed(line: string)
    requires |line| > 0 && line[0] != '#' && line[0] != '-' && line[0] != '1'
    ensures Unprefixed(line)
  {
    forall p: string | p in ["# ", "## ", "### ", "- ", "1. "]
      ensures !StartsWith(line, p)
    {
      if |p| <= |line| {
        assert line[..|p|][0] == line[0];
      }
    }
  }

  /** A line no prefix claims and that is not blank is a paragraph holding the whole line. */
  lemma ParaLine(line: string)
    requires Unprefixed(line) && !IsBlank(line)
    ensures LineToBlock(line) == Some(Para(line))
  {
    StripEmptyIffBlank(line);
  }

  /** Every block is read back from its rendering; a paragraph needs a line no other rule takes. */
  lemma LineToBlockRender(b: Block)
    requires b.Para? ==> Unprefixed(b.text) && !IsBlank(b.text)
    ensures LineToBlock(Render(b)) == Some(b)
  {
    var line := Render(b);
    match b
    case H1(t) =>
      assert line[..2] == "# " && line[2..] == t;
    case H2(t) =>
      assert line[..2] != "# " by { assert line[1] == '#'; }
      assert line[..3] == "## " && line[3..] == t;
    case H3(t) =>
      assert line[..2] != "# " by { assert line[1] == '#'; }
      assert line[..3] != "## " by { assert line[2] == '#'; }
      assert line[..4] == "### " && line[4..] == t;
    case Bullet(t) =>
      assert line[0] == '-';
      assert !StartsWith(line, "# ") && !StartsWith(line, "## ") && !StartsWith(line, "### ") by {
        if 2 <= |line| { assert line[..2][0] == '-'; }
        if 3 <= |line| { assert line[..3][0] == '-'; }
        if 4 <= |line| { assert line[..4][0] == '-'; }
      }
      assert line[..2] == "- " && line[2..] == t;
    case Numbered(t) =>
      assert line[0] == '1';
      assert !StartsWith(line, "# ") && !StartsWith(line, "## ") && !StartsWith(line, "### ") &&
        !StartsWith(line, "- ") by {
        assert line[..2][0] == '1';
        if 4 <= |line| { assert line[..4][0] == '1'; }
      }
      assert line[..3] == "1. " && line[3..] == t;
    case Para(t) =>
      ParaLine(t);
  }

  /** Only the literal `1. ` makes a numbered item: another numeral keeps the whole line as a paragraph. */
  lemma OtherNumeralIsPara(d: char, rest: string)
    requires '0' <= d <= '9' && d != '1'
    ensures LineToBlock([d] + ". " + rest) == Some(Para([d] + ". " + rest))
  {
    var line := [d] + ". " + rest;
    assert line[0] == d;
    FirstCharUnprefixed(line);
    assert !IsBlank(line) by { assert !IsWhitespace(line[0]); }
    ParaLine(line);
  }

  /** The blocks of a line, as a sequence of zero or one. */
  function Emit(o: Option<Block>): seq<Block>
  {
    match o
    case None => []
    case Some(b) => [b]
  }

  /** The blocks of a list of lines, in line order. */
  function BlocksOfLines(lines: seq<string>): seq<Block>
    decreases |lines|
  {
    if lines == [] then []
    else BlocksOfLines(lines[..|lines| - 1]) + Emit(LineToBlock(lines[|lines| - 1]))
  }

  /** The lines that yield a block, in order. */
  function KeptLines(lines: seq<string>): seq<string>
    decreases |lines|
  {
    if lines == [] then []
    else
      var last := lines[|lines| - 1];
      KeptLines(lines[..|lines| - 1]) + (if LineToBlock(last).Some? then [last] else [])
  }

  function RenderAll(blocks: seq<Block>): seq<string>
    decreases |blocks|
  {
    if blocks == [] then [] else RenderAll(blocks[..|blocks| - 1]) + [Render(blocks[|blocks| - 1])]
  }

  /** What `markdown_to_notion_blocks(text)` returns. */
  function BlocksOf(text: string): seq<Block>
  {
    BlocksOfLines(Split(text, "\n"))
  }

  lemma RenderAllAppend(blocks: seq<Block>, more: seq<Block>)
    requires |more| <= 1
    ensures RenderAll(blocks + more) == RenderAll(blocks) + RenderAll(more)
  {
    if more == [] {
      assert blocks + more == blocks;
    } else {
      assert (blocks + more)[..|blocks + more| - 1] == blocks;
      assert (blocks + more)[|blocks + more| - 1] == more[0];
      assert more[..0] == [];
    }
  }

  /**
   * Rendering the blocks gives back exactly the lines that were not skipped, in
   * their order: one block per kept line, nothing merged, nothing reordered.
   */
  lemma {:induction false} RenderBlocksOfLines(lines: seq<string>)
    ensures RenderAll(BlocksOfLines(lines)) == KeptLines(lines)
    decreases |lines|
  {
    if lines != [] {
      var init, last := lines[..|lines| - 1], lines[|lines| - 1];
      var e := Emit(LineToBlock(last));
      RenderBlocksOfLines(init);
      assert BlocksOfLines(lines) == BlocksOfLines(init) + e;
      RenderAllAppend(BlocksOfLines(init), e);
      if LineToBlock(last).Some? {
        var b := LineToBlock(last).value;
        RenderLineToBlock(last);
        assert [b][..0] == [];
        assert RenderAll(e) == [last];
      } else {
        assert RenderAll(e) == [];
      }
      assert KeptLines(lines) == KeptLines(init) + RenderAll(e);
    }
  }

  /** At most one block per line. */
  lemma {:induction false} BlocksAtMostLines(lines: seq<string>)
    ensures |BlocksOfLines(lines)| <= |lines|
    decreases |lines|
  {
    if lines != [] {
      BlocksAtMostLines(lines[..|lines| - 1]);
    }
  }

  /** Blocks of consecutive groups of lines are the consecutive groups of blocks. */
  lemma {:induction false} BlocksOfLinesAppend(a: seq<string>, b: seq<string>)
    ensures BlocksOfLines(a + b) == BlocksOfLines(a) + BlocksOfLines(b)
    decreases |b|
  {
    if b == [] {
      assert a + b == a;
    } else {
      var b' := b[..|b| - 1];
      var e := Emit(LineToBlock(b[|b| - 1]));
      assert (a + b)[..|a + b| - 1] == a + b';
      assert (a + b)[|a + b| - 1] == b[|b| - 1];
      BlocksOfLinesAppend(a, b');
      assert BlocksOfLines(a + b) == BlocksOfLines(a + b') + e;
      assert BlocksOfLines(b) == BlocksOfLines(b') + e;
    }
  }

  /** The empty text is one blank line and yields no blocks. */
  lemma EmptyTextNoBlocks()
    ensures BlocksOf("") == []
  {
    MissingFirstChar("", "\n");
    SplitNone("", "\n");
  }

  /** A text without a line break is a single line. */
  lemma SingleLine(line: string)
    requires forall k :: 0 <= k < |line| ==> line[k] != '\n'
    ensures BlocksOf(line) == Emit(LineToBlock(line))
  {
    MissingFirstChar(line, "\n");
    SplitNone(line, "\n");
    assert Split(line, "\n") == [line];
    assert [line][..0] == [];
    assert BlocksOfLines([line]) == BlocksOfLines([]) + Emit(LineToBlock(line));
  }

  /** A rendered block's line holds a line break only where its text does. */
  lemma RenderNoBreak(b: Block)
    requires forall k :: 0 <= k < |b.text| ==> b.text[k] != '\n'
    ensures forall k :: 0 <= k < |Render(b)| ==> Render(b)[k] != '\n'
  {
    var line, n := Render(b), |Render(b)| - |b.text|;
    assert line == line[..n] + b.text;
    forall k | 0 <= k < |line|
      ensures line[k] != '\n'
    {
      if k >= n {
        assert line[k] == b.text[k - n];
      }
    }
  }

  /** A prefixed block on a line of its own is read back as that one block. */
  lemma PrefixedLine(b: Block)
    requires !b.Para?
    requires forall k :: 0 <= k < |b.text| ==> b.text[k] != '\n'
    ensures BlocksOf(Render(b)) == [b]
  {
    RenderNoBreak(b);
    SingleLine(Render(b));
    LineToBlockRender(b);
  }

  /** A heading line yields one H1 block. */
  lemma HeadingExample()
    ensures BlocksOf("# Title") == [H1("Title")]
  {
    PrefixedLine(H1("Title"));
    assert Render(H1("Title")) == "# Title";
  }

  /** `1. ` makes a numbered item. */
  lemma NumberedExample()
    ensures BlocksOf("1. First") == [Numbered("First")]
  {
    PrefixedLine(Numbered("First"));
    assert Render(Numbered("First")) == "1. First";
  }

  /** A single line that starts with no prefix character and no whitespace is one paragraph. */
  lemma SingleParaLine(line: string)
    requires forall k :: 0 <= k < |line| ==> line[k] != '\n'
    requires |line| > 0 && line[0] != '#' && line[0] != '-' && line[0] != '1'
    requires !IsWhitespace(line[0])
    ensures BlocksOf(line) == [Para(line)]
  {
    SingleLine(line);
    FirstCharUnprefixed(line);
    ParaLine(line);
  }

  /** `2. ` does not: the line stays a paragraph. */
  lemma SecondNumeralExample()
    ensures BlocksOf("2. Second") == [Para("2. Second")]
  {
    SingleParaLine("2. Second");
  }

  /** `- ` is not blank, and the bullet rule takes it: an empty bullet. */
  lemma EmptyBulletExample()
    ensures BlocksOf("- ") == [Bullet("")]
  {
    PrefixedLine(Bullet(""));
    assert Render(Bullet("")) == "- ";
  }

  /** A whitespace-only line yields no block. */
  lemma BlankLine(line: string)
    requires forall k :: 0 <= k < |line| ==> line[k] != '\n'
    requires IsBlank(line)
    ensures BlocksOf(line) == []
  {
    SingleLine(line);
    if |line| > 0 {
      assert IsWhitespace(line[0]);
      FirstCharUnprefixed(line);
    }
    SkippedIffBlank(line);
  }

  /** Spaces and a tab yield no block. */
  lemma BlankLineExample()
    ensures BlocksOf(" \t ") == []
  {
    BlankLine(" \t ");
  }

  /** Two lines joined by a line break yield the blocks of each, in order. */
  lemma TwoLines(a: string, b: string)
    requires forall k :: 0 <= k < |a| ==> a[k] != '\n'
    requires forall k :: 0 <= k < |b| ==> b[k] != '\n'
    ensures BlocksOf(a + "\n" + b) == Emit(LineToBlock(a)) + Emit(LineToBlock(b))
  {
    var text := a + "\n" + b;
    assert text[|a|] == '\n';
    assert OccursAt(text, "\n", |a|);
    FirstByFirstChar(text, "\n", |a|);
    SplitAt(text, "\n", |a|);
    assert text[..|a|] == a && text[|a| + 1..] == b;
    MissingFirstChar(b, "\n");
    SplitNone(b, "\n");
    var lines := [a, b];
    assert Split(text, "\n") == lines;
    assert lines[..1] == [a] && [a][..0] == [];
    assert BlocksOfLines(lines) == BlocksOfLines([a]) + Emit(LineToBlock(b));
    assert BlocksOfLines([a]) == Emit(LineToBlock(a));
  }

  /** Two blocks rendered on consecutive lines are read back as those two blocks. */
  lemma TwoBlockLines(x: Block, y: Block)
    requires !x.Para? && !y.Para?
    requires forall k :: 0 <= k < |x.text| ==> x.text[k] != '\n'
    requires forall k :: 0 <= k < |y.text| ==> y.text[k] != '\n'
    ensures BlocksOf(Render(x) + "\n" + Render(y)) == [x, y]
  {
    var a, b := Render(x), Render(y);
    RenderNoBreak(x);
    RenderNoBreak(y);
    TwoLines(a, b);
    LineToBlockRender(x);
    LineToBlockRender(y);
  }

  /** A heading line and a bullet line yield a heading and a bullet. */
  lemma TwoLineExample()
    ensures BlocksOf("# Title" + "\n" + "- point one") == [H1("Title"), Bullet("point one")]
  {
    TwoBlockLines(H1("Title"), Bullet("point one"));
    assert Render(H1("Title")) == "# Title";
    assert Render(Bullet("point one")) == "- point one";
  }

  /** `markdown_to_notion_blocks`: the loop over the lines, appending one block per kept line. */
  method MarkdownToBlocks(text: string) returns (blocks: seq<Block>)
    ensures blocks == BlocksOf(text)
  {
    blocks := [];
    var lines := Split(text, "\n");
    for i := 0 to |lines|
      invariant blocks == BlocksOfLines(lines[..i])
    {
      assert lines[..i + 1][..i] == lines[..i];
      var line := lines[i];
      // The rule chain of LineToBlock, with `continue` for a skipped line.
      if StartsWith(line, "# ") {
        blocks := blocks + [H1(line[2..])];
      } else if StartsWith(line, "## ") {
        blocks := blocks + [H2(line[3..])];
      } else if StartsWith(line, "### ") {
        blocks := blocks + [H3(line[4..])];
      } else if StartsWith(line, "- ") {
        blocks := blocks + [Bullet(line[2..])];
      } else if StartsWith(line, "1. ") {
        blocks := blocks + [Numbered(line[3..])];
      } else if Strip(line) == "" {
        continue;
      } else {
        blocks := blocks + [Para(line)];
      }
    }
    assert lines[..|lines|] == lines;
  }
}
