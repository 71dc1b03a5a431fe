/**
  The line predicates of the dependency-file format and the extraction of a
  node name from a declaration line (`is_edge_line`, `is_node_line`,
  `is_comment_start_line`, `is_comment_end_line`, `get_node_name`,
  `is_complete_line`). Lines reach these predicates already lower-cased.
 */
module LineKinds {
  import opened Text

  const Arrow: string := "->"
  const CompleteTag: string := "[complete]"
  const Quote: string := "\""

  /** Starts with the `-` marker and mentions `->` anywhere. */
  predicate IsEdgeLine(line: string) {
    StartsWith(line, "-") && Contains(line, Arrow)
  }

  /** Starts with the marker, is not an edge line, and is not made of dashes and blanks only. */
  predicate IsNodeLine(line: string) {
    StartsWith(line, "-") && !IsEdgeLine(line) && Strip(Without(line, '-')) != ""
  }

  predicate IsCommentStartLine(line: string) {
    StartsWith(Strip(line), Quote)
  }

  predicate IsCommentEndLine(line: string) {
    EndsWith(Strip(line), Quote)
  }

  /** Removes one leading `-`, trims, removes one leading `[complete]`, trims. */
  function GetNodeName(line: string): (name: string)
    ensures Trimmed(name) && |name| <= |line|
  {
    Strip(StripPrefix(Strip(StripPrefix(line, "-")), CompleteTag))
  }

  /** The tag is looked for anywhere in the line, not only where `GetNodeName` removes it. */
  predicate IsCompleteLine(line: string) {
    Contains(Lower(line), CompleteTag)
  }

  /** A node line is exactly a marked line without `->` that holds some
      character other than a dash or whitespace; in particular it is never an edge line. */
  lemma NodeLineShape(line: string)
    ensures IsNodeLine(line) <==>
              && StartsWith(line, "-")
              && !Contains(line, Arrow)
              && exists k :: 0 <= k < |line| && line[k] != '-' && !IsSpace(line[k])
    ensures IsNodeLine(line) ==> !IsEdgeLine(line)
  {
    var w := Without(line, '-');
    var hasMark := exists k :: 0 <= k < |line| && line[k] != '-' && !IsSpace(line[k]);
    if hasMark {
      var k :| 0 <= k < |line| && line[k] != '-' && !IsSpace(line[k]);
      assert line[k] in w;
      var j :| 0 <= j < |w| && w[j] == line[k];
      assert !AllSpace(w);
    }
    if !AllSpace(w) {
      var j :| 0 <= j < |w| && !IsSpace(w[j]);
      assert w[j] in line;
      var k :| 0 <= k < |line| && line[k] == w[j];
      assert hasMark;
    }
    StripEmpty(w);
  }

  /** An edge line starts with `-` and has a `-` directly followed by `>` somewhere. */
  lemma EdgeLineShape(line: string)
    ensures IsEdgeLine(line) <==>
              && |line| > 0 && line[0] == '-'
              && exists k :: 0 <= k < |line| - 1 && line[k] == '-' && line[k + 1] == '>'
  {
    assert StartsWith(line, "-") <==> |line| > 0 && line[0] == '-' by {
      if |line| > 0 { assert line[..1] == [line[0]]; }
    }
    if Contains(line, Arrow) {
      var k: nat :| OccursAt(line, Arrow, k);
      assert line[k..k + 2][0] == line[k] && line[k..k + 2][1] == line[k + 1];
    }
    if exists k :: 0 <= k < |line| - 1 && line[k] == '-' && line[k + 1] == '>' {
      var k :| 0 <= k < |line| - 1 && line[k] == '-' && line[k + 1] == '>';
      assert line[k..k + 2] == Arrow;
      assert OccursAt(line, Arrow, k);
    }
  }

  /** A comment starts on a line whose first non-space character is a quote. */
  lemma CommentStartShape(line: string)
    ensures IsCommentStartLine(line) <==>
              exists k :: 0 <= k < |line| && line[k] == '"' && AllSpace(line[..k])
  {
    var t := Strip(line);
    assert StartsWith(t, Quote) <==> |t| > 0 && t[0] == '"' by {
      if |t| > 0 { assert t[..1] == [t[0]]; }
    }
    FirstNonSpace(line, '"');
  }

  /** A comment ends on a line whose last non-space character is a quote. */
  lemma CommentEndShape(line: string)
    ensures IsCommentEndLine(line) <==>
              exists k :: 0 <= k < |line| && line[k] == '"' && AllSpace(line[k + 1..])
  {
    var t := Strip(line);
    assert EndsWith(t, Quote) <==> |t| > 0 && t[|t| - 1] == '"' by {
      if |t| > 0 { assert t[|t| - 1..] == [t[|t| - 1]]; }
    }
    LastNonSpace(line, '"');
  }

  /** The tag written in any mix of ASCII cases, at `p`. */
  predicate TagAt(line: string, p: nat) {
    p + |CompleteTag| <= |line| && Lower(line[p..p + |CompleteTag|]) == CompleteTag
  }

  /** A line is complete exactly when the tag occurs in it anywhere, in any ASCII case:
      with the tag at the end, in the name, or written `[Complete]`. */
  lemma CompleteLineShape(line: string)
    ensures IsCompleteLine(line) <==> exists p :: TagAt(line, p)
  {
    var n := |CompleteTag|;
    if IsCompleteLine(line) {
      var p: nat :| OccursAt(Lower(line), CompleteTag, p);
      LowerSlice(line, p, p + n);
      assert TagAt(line, p);
    }
    if exists p :: TagAt(line, p) {
      var p: nat :| TagAt(line, p);
      LowerSlice(line, p, p + n);
      assert OccursAt(Lower(line), CompleteTag, p);
    }
  }

  /** The capitalised tag also marks a line complete. */
  lemma CapitalisedTag()
    ensures IsCompleteLine("- [Complete] x")
  {
    var line := "- [Complete] x";
    var t := Lower(line[2..12]);
    assert line[2..12] == "[Complete]";
    assert LowerChar('C') == 'c';
    assert |t| == |CompleteTag| && forall k :: 0 <= k < |t| ==> t[k] == CompleteTag[k];
    assert TagAt(line, 2);
    CompleteLineShape(line);
  }

  /** Lower-casing leaves the tag's characters alone. */
  lemma LowerKeepsTag(line: string, p: nat)
    requires OccursAt(line, CompleteTag, p)
    ensures OccursAt(Lower(line), CompleteTag, p)
  {
    var low := Lower(line);
    forall j | 0 <= j < |CompleteTag| ensures low[p + j] == CompleteTag[j] {
      assert line[p + j] == line[p..p + |CompleteTag|][j] == CompleteTag[j];
      assert low[p + j] == LowerChar(line[p + j]);
    }
    assert low[p..p + |CompleteTag|] == CompleteTag;
  }

  /** A declaration line written as `-<ws0>[complete]<ws1><name><ws2>`, the tag optional. */
  function DeclarationLine(ws0: string, tagged: bool, ws1: string, name: string, ws2: string): string {
    "-" + ws0 + (if tagged then CompleteTag + ws1 else "") + name + ws2
  }

  /** `GetNodeName` gives back the name a declaration was written with, and a written
      tag marks the line complete. Only one leading tag is removed, so an untagged
      name must not itself start with one. */
  lemma DeclarationRoundTrip(ws0: string, tagged: bool, ws1: string, name: string, ws2: string)
    requires AllSpace(ws0) && AllSpace(ws1) && AllSpace(ws2) && Trimmed(name)
    requires !tagged ==> !StartsWith(name, CompleteTag)
    ensures GetNodeName(DeclarationLine(ws0, tagged, ws1, name, ws2)) == name
    ensures tagged ==> IsCompleteLine(DeclarationLine(ws0, tagged, ws1, name, ws2))
  {
    if tagged {
      TaggedDeclaration(ws0, ws1, name, ws2);
      TaggedDeclarationIsComplete(ws0, ws1, name, ws2);
    } else {
      UntaggedDeclaration(ws0, ws1, name, ws2);
    }
  }

  lemma TaggedDeclaration(ws0: string, ws1: string, name: string, ws2: string)
    requires AllSpace(ws0) && AllSpace(ws1) && AllSpace(ws2) && Trimmed(name)
    ensures GetNodeName(DeclarationLine(ws0, true, ws1, name, ws2)) == name
  {
    assert DeclarationLine(ws0, true, ws1, name, ws2) == "-" + ws0 + CompleteTag + ws1 + name + ws2;
    TaggedName("-", ws0, CompleteTag, ws1, name, ws2);
  }

  lemma TaggedDeclarationIsComplete(ws0: string, ws1: string, name: string, ws2: string)
    ensures IsCompleteLine(DeclarationLine(ws0, true, ws1, name, ws2))
  {
    assert DeclarationLine(ws0, true, ws1, name, ws2) == ("-" + ws0) + CompleteTag + (ws1 + name + ws2);
    TaggedLineIsComplete("-" + ws0, ws1 + name + ws2);
  }

  lemma UntaggedDeclaration(ws0: string, ws1: string, name: string, ws2: string)
    requires AllSpace(ws0) && AllSpace(ws2) && Trimmed(name)
    requires !StartsWith(name, CompleteTag)
    ensures GetNodeName(DeclarationLine(ws0, false, ws1, name, ws2)) == name
  {
    assert DeclarationLine(ws0, false, ws1, name, ws2) == "-" + ws0 + name + ws2;
    UntaggedName("-", ws0, name, ws2);
  }

  lemma UntaggedName(dash: string, ws0: string, name: string, ws2: string)
    requires dash == "-"
    requires AllSpace(ws0) && AllSpace(ws2) && Trimmed(name)
    requires !StartsWith(name, CompleteTag)
    ensures GetNodeName(dash + ws0 + name + ws2) == name
  {
    var body := ws0 + name + ws2;
    var line := dash + body;
    assert dash + ws0 + name + ws2 == line;
    assert StripPrefix(line, dash) == body;
    StripPadded(ws0, name, ws2);
    assert StripPrefix(name, CompleteTag) == name;
    StripPadded("", name, "");
    assert "" + name + "" == name;
  }

  lemma TaggedName(dash: string, ws0: string, tag: string, ws1: string, name: string, ws2: string)
    requires dash == "-" && tag == CompleteTag
    requires AllSpace(ws0) && AllSpace(ws1) && AllSpace(ws2) && Trimmed(name)
    ensures GetNodeName(dash + ws0 + tag + ws1 + name + ws2) == name
  {
    var body := ws0 + tag + ws1 + name + ws2;
    var line := dash + body;
    assert dash + ws0 + tag + ws1 + name + ws2 == line;
    assert StripPrefix(line, dash) == body;
    assert tag != [] && Trimmed(tag);
    PrefixedName(ws0, tag, ws1, name, ws2);
  }

  lemma TaggedLineIsComplete(pre: string, post: string)
    ensures IsCompleteLine(pre + CompleteTag + post)
  {
    OccursBetween(pre, CompleteTag, post);
    LowerKeepsTag(pre + CompleteTag + post, |pre|);
  }

  lemma OccursBetween(pre: string, t: string, post: string)
    ensures OccursAt(pre + t + post, t, |pre|)
  {
    assert (pre + t + post)[|pre|..|pre| + |t|] == t;
  }

  /** Trimming, removing a leading non-blank `tag`, and trimming again recovers `name`. */
  lemma PrefixedName(ws0: string, tag: string, ws1: string, name: string, ws2: string)
    requires AllSpace(ws0) && AllSpace(ws1) && AllSpace(ws2) && Trimmed(name)
    requires tag != [] && Trimmed(tag)
    ensures Strip(StripPrefix(Strip(ws0 + tag + ws1 + name + ws2), tag)) == name
  {
    if name == [] {
      TagOnly(ws0, tag, ws1, name, ws2);
    } else {
      TagThenName(ws0, tag, ws1, name, ws2);
      StripPadded(ws1, name, "");
      assert ws1 + name + "" == ws1 + name;
    }
  }

  lemma TagOnly(ws0: string, tag: string, ws1: string, name: string, ws2: string)
    requires AllSpace(ws0) && AllSpace(ws1) && AllSpace(ws2) && Trimmed(name)
    requires tag != [] && Trimmed(tag) && name == []
    ensures StripPrefix(Strip(ws0 + tag + ws1 + name + ws2), tag) == []
  {
    assert ws0 + tag + ws1 + name + ws2 == ws0 + tag + (ws1 + ws2);
    AllSpaceConcat(ws1, ws2);
    StripPadded(ws0, tag, ws1 + ws2);
    assert StripPrefix(tag, tag) == [];
  }

  lemma TagThenName(ws0: string, tag: string, ws1: string, name: string, ws2: string)
    requires AllSpace(ws0) && AllSpace(ws1) && AllSpace(ws2) && Trimmed(name)
    requires tag != [] && Trimmed(tag) && name != []
    ensures StripPrefix(Strip(ws0 + tag + ws1 + name + ws2), tag) == ws1 + name
  {
    var core := tag + ws1 + name;
    assert core[0] == tag[0];
    assert core[|core| - 1] == name[|name| - 1];
    assert ws0 + tag + ws1 + name + ws2 == ws0 + core + ws2;
    StripPadded(ws0, core, ws2);
    assert core == tag + (ws1 + name);
  }

  /** A tag written after the name still marks the node complete, but stays part of its name:
      `- x [complete]` declares the complete node `x [complete]`. */
  lemma TrailingTag()
    ensures GetNodeName(DeclarationLine(" ", false, "", "x " + CompleteTag, "")) == "x " + CompleteTag
    ensures IsCompleteLine(DeclarationLine(" ", false, "", "x " + CompleteTag, ""))
  {
    TrailingTagName();
    TrailingTagComplete();
  }

  lemma TrailingTagName()
    ensures GetNodeName(DeclarationLine(" ", false, "", "x " + CompleteTag, "")) == "x " + CompleteTag
  {
    var name := "x " + CompleteTag;
    assert name[0] == 'x' && name[|name| - 1] == ']';
    assert !StartsWith(name, CompleteTag) by {
      assert name[..|CompleteTag|][0] == 'x';
    }
    assert AllSpace(" ");
    UntaggedDeclaration(" ", "", name, "");
  }

  lemma TrailingTagComplete()
    ensures IsCompleteLine(DeclarationLine(" ", false, "", "x " + CompleteTag, ""))
  {
    assert DeclarationLine(" ", false, "", "x " + CompleteTag, "") == "- x " + CompleteTag + "";
    TaggedLineIsComplete("- x ", "");
  }
}
