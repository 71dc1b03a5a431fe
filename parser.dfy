/**
  The text parser: `read_comment`, `extract_node_info` and the list pipeline of
  `read_deps`. The file is given as its sequence of lines (each still carrying
  its line break, as `readlines` returns them); reading the file is not modelled.
 */
module Parser {
  import opened Wrappers
  import opened Text
  import opened LineKinds
  import opened Lists

  /** `textwrap.wrap(text, width)`: the pieces a paragraph is broken into.
      Its algorithm is not modelled; it is a parameter of the parser. */
  type Wrapper = (string, nat) -> seq<string>

  /** The width every comment line is wrapped to. */
  const WrapWidth: nat := 30

  /** The line-break marker of the graph-description format, a backslash and an `l`. */
  const LineBreak: string := "\\l"

  /** What a declaration line records about its node. */
  datatype NodeInfo = NodeInfo(name: string, complete: bool, comment: string)

  datatype ParseError =
    | DuplicateNode(name: string)       // a name declared by a second node line
    | UnterminatedComment(start: nat)   // a comment block runs past the last line
    | EmptyCommentLine(line: nat)       // a comment block whose first line wraps to nothing

  /** The only property of `wrap` the parser's behaviour depends on: an empty text wraps
      to no pieces, and the last piece of a trimmed non-empty text ends with its last character. */
  ghost predicate KeepsLastChar(wrap: Wrapper) {
    forall s :: KeepsLastCharOf(wrap, s)
  }

  /** `KeepsLastChar` for the one text `s`. */
  ghost predicate KeepsLastCharOf(wrap: Wrapper, s: string) {
    Trimmed(s) ==>
      var pieces := wrap(s, WrapWidth);
      (|s| == 0 ==> |pieces| == 0) &&
      (|s| > 0 ==> |pieces| > 0 && EndsWith(pieces[|pieces| - 1], [s[|s| - 1]]))
  }

  // ---------------------------------------------------------------- read_comment

  /** The pieces gathered from the wrapped, trimmed lines `lines[i..j]`. */
  function Segments(wrap: Wrapper, lines: seq<string>, i: nat, j: nat): seq<string>
    requires i <= j <= |lines|
    decreases j
  {
    if j == i then [] else Segments(wrap, lines, i, j - 1) + wrap(Strip(lines[j - 1]), WrapWidth)
  }

  /** The gathered pieces end a comment: the last one ends with a quote. */
  predicate Closes(pieces: seq<string>) {
    |pieces| > 0 && EndsWith(pieces[|pieces| - 1], Quote)
  }

  /** A comment started at line `i` is closed once line `k` has been gathered. */
  predicate ClosesAt(wrap: Wrapper, lines: seq<string>, i: nat, k: nat)
    requires i <= k < |lines|
  {
    Closes(Segments(wrap, lines, i, k + 1))
  }

  /** The line, at or after `j`, on which a comment started at line `i` closes. */
  function CommentClose(wrap: Wrapper, lines: seq<string>, i: nat, j: nat): (r: Result<nat, ParseError>)
    requires i <= j < |lines|
    ensures r.Success? ==> j <= r.value < |lines|
    decreases |lines| - j
  {
    if |Segments(wrap, lines, i, j + 1)| == 0 then Failure(EmptyCommentLine(j))
    else if ClosesAt(wrap, lines, i, j) then Success(j)
    else if j + 1 == |lines| then Failure(UnterminatedComment(i))
    else CommentClose(wrap, lines, i, j + 1)
  }

  /** `CommentClose` finds the first line whose gathered pieces close the comment. */
  lemma CommentCloseIsFirstClose(wrap: Wrapper, lines: seq<string>, i: nat, j: nat)
    requires i <= j < |lines|
    ensures CommentClose(wrap, lines, i, j).Success? ==>
              && ClosesAt(wrap, lines, i, CommentClose(wrap, lines, i, j).value)
              && forall k :: j <= k < CommentClose(wrap, lines, i, j).value ==> !ClosesAt(wrap, lines, i, k)
  {
    CommentCloseCloses(wrap, lines, i, j);
    CommentCloseNoEarlier(wrap, lines, i, j);
  }

  lemma {:induction false} CommentCloseCloses(wrap: Wrapper, lines: seq<string>, i: nat, j: nat)
    requires i <= j < |lines|
    ensures CommentClose(wrap, lines, i, j).Success? ==> ClosesAt(wrap, lines, i, CommentClose(wrap, lines, i, j).value)
    decreases |lines| - j
  {
    if |Segments(wrap, lines, i, j + 1)| > 0 && !ClosesAt(wrap, lines, i, j) && j + 1 < |lines| {
      CommentCloseCloses(wrap, lines, i, j + 1);
    }
  }

  lemma {:induction false} CommentCloseNoEarlier(wrap: Wrapper, lines: seq<string>, i: nat, j: nat)
    requires i <= j < |lines|
    ensures CommentClose(wrap, lines, i, j).Success? ==>
              forall k :: j <= k < CommentClose(wrap, lines, i, j).value ==> !ClosesAt(wrap, lines, i, k)
    decreases |lines| - j
  {
    if |Segments(wrap, lines, i, j + 1)| > 0 && !ClosesAt(wrap, lines, i, j) && j + 1 < |lines| {
      CommentCloseNoEarlier(wrap, lines, i, j + 1);
    }
  }

  /** `CommentClose` fails exactly when the first line gathers nothing or no line closes the comment. */
  lemma {:induction false} CommentCloseFails(wrap: Wrapper, lines: seq<string>, i: nat, j: nat)
    requires i <= j < |lines|
    ensures CommentClose(wrap, lines, i, j).Failure? <==>
              |Segments(wrap, lines, i, j + 1)| == 0 || forall k :: j <= k < |lines| ==> !ClosesAt(wrap, lines, i, k)
    decreases |lines| - j
  {
    var pieces := Segments(wrap, lines, i, j + 1);
    if |pieces| > 0 && !ClosesAt(wrap, lines, i, j) && j + 1 < |lines| {
      assert Segments(wrap, lines, i, j + 2) == pieces + wrap(Strip(lines[j + 1]), WrapWidth);
      CommentCloseFails(wrap, lines, i, j + 1);
    }
  }

  /** The first line at or after `k` that ends with a quote once trimmed. */
  function FirstCommentEnd(lines: seq<string>, k: nat): (r: Option<nat>)
    requires k <= |lines|
    ensures r.Some? ==> k <= r.value < |lines| && IsCommentEndLine(lines[r.value])
    ensures r.Some? ==> forall m :: k <= m < r.value ==> !IsCommentEndLine(lines[m])
    ensures r.None? ==> forall m :: k <= m < |lines| ==> !IsCommentEndLine(lines[m])
    decreases |lines| - k
  {
    if k == |lines| then None
    else if IsCommentEndLine(lines[k]) then Some(k)
    else FirstCommentEnd(lines, k + 1)
  }

  /** Appending a non-empty batch of pieces decides closing by that batch alone. */
  lemma ClosesAppend(front: seq<string>, pieces: seq<string>)
    requires |pieces| > 0
    ensures Closes(front + pieces) <==> Closes(pieces)
  {
    assert (front + pieces)[|front + pieces| - 1] == pieces[|pieces| - 1];
  }

  /** Two one-character suffixes of a string agree exactly when the characters do. */
  lemma LastCharSuffix(x: string, c: char, q: string)
    requires EndsWith(x, [c]) && |q| == 1
    ensures EndsWith(x, q) <==> q[0] == c
  {
    assert x[|x| - 1..] == [x[|x| - 1]];
  }

  /** A trimmed non-empty line wraps to pieces the last of which ends with a quote exactly
      when the line does. */
  lemma WrappedLineCloses(wrap: Wrapper, t: string)
    requires KeepsLastChar(wrap) && Trimmed(t) && |t| > 0
    ensures |wrap(t, WrapWidth)| > 0
    ensures Closes(wrap(t, WrapWidth)) <==> EndsWith(t, Quote)
  {
    assert KeepsLastCharOf(wrap, t);
    var pieces := wrap(t, WrapWidth);
    var c := t[|t| - 1];
    assert EndsWith(pieces[|pieces| - 1], [c]);
    LastCharSuffix(pieces[|pieces| - 1], c, Quote);
    assert t[|t| - 1..] == [c];
    LastCharSuffix(t, c, Quote);
  }

  /** For a comment opened by a quoted line, the pieces gathered up to line `k` close it
      exactly when line `k` itself ends with a quote (given no earlier line did). */
  lemma {:induction false} ClosesOnQuotedLine(wrap: Wrapper, lines: seq<string>, i: nat, k: nat)
    requires KeepsLastChar(wrap)
    requires i <= k < |lines| && IsCommentStartLine(lines[i])
    requires forall m :: i <= m < k ==> !IsCommentEndLine(lines[m])
    ensures |Segments(wrap, lines, i, k + 1)| > 0
    ensures ClosesAt(wrap, lines, i, k) <==> IsCommentEndLine(lines[k])
    decreases k
  {
    var t := Strip(lines[k]);
    assert Segments(wrap, lines, i, k + 1) == Segments(wrap, lines, i, k) + wrap(t, WrapWidth);
    if |t| > 0 {
      WrappedLineCloses(wrap, t);
      ClosesAppend(Segments(wrap, lines, i, k), wrap(t, WrapWidth));
      assert ClosesAt(wrap, lines, i, k) == Closes(Segments(wrap, lines, i, k) + wrap(t, WrapWidth));
      assert IsCommentEndLine(lines[k]) == EndsWith(t, Quote);
      assert |Segments(wrap, lines, i, k + 1)| == |Segments(wrap, lines, i, k)| + |wrap(t, WrapWidth)|;
    } else {
      assert k != i by {
        assert StartsWith(Strip(lines[i]), Quote);
      }
      assert !IsCommentEndLine(lines[k]);
      ClosesOnQuotedLine(wrap, lines, i, k - 1);
      assert !IsCommentEndLine(lines[k - 1]);
      assert |wrap(t, WrapWidth)| == 0 by {
        assert KeepsLastCharOf(wrap, t);
      }
      assert Segments(wrap, lines, i, k + 1) == Segments(wrap, lines, i, k);
      assert |Segments(wrap, lines, i, k)| > 0;
      assert ClosesAt(wrap, lines, i, k) == ClosesAt(wrap, lines, i, k - 1);
    }
  }

  /** Under `KeepsLastChar`, a comment opened on line `i` closes on the first line at or after
      `i` whose trimmed text ends with a quote, and reading fails when there is none. */
  lemma CommentEndsOnQuotedLine(wrap: Wrapper, lines: seq<string>, i: nat)
    requires KeepsLastChar(wrap)
    requires i < |lines| && IsCommentStartLine(lines[i])
    ensures FirstCommentEnd(lines, i).Some? ==> CommentClose(wrap, lines, i, i) == Success(FirstCommentEnd(lines, i).value)
    ensures FirstCommentEnd(lines, i).None? ==> CommentClose(wrap, lines, i, i).Failure?
  {
    var e := FirstCommentEnd(lines, i);
    var r := CommentClose(wrap, lines, i, i);
    ClosesOnQuotedLine(wrap, lines, i, i);
    CommentCloseFails(wrap, lines, i, i);
    CommentCloseIsFirstClose(wrap, lines, i, i);
    if e.Some? {
      var j := e.value;
      ClosesOnQuotedLine(wrap, lines, i, j);
      assert r.Success?;
      if r.value < j {
        ClosesOnQuotedLine(wrap, lines, i, r.value);
      }
      assert r.value == j;
    } else {
      forall k | i <= k < |lines| ensures !ClosesAt(wrap, lines, i, k) {
        ClosesOnQuotedLine(wrap, lines, i, k);
      }
    }
  }

  /** The comment text: the pieces joined by line breaks, without quotes, with a final line break. */
  function RenderComment(pieces: seq<string>): (r: string)
    ensures '"' !in r && EndsWith(r, LineBreak)
  {
    Without(Join(pieces, LineBreak), '"') + LineBreak
  }

  /** What `read_comment(i, lines)` returns: the comment text and the index of its closing line. */
  function CommentAt(wrap: Wrapper, lines: seq<string>, i: nat): (r: Result<(string, nat), ParseError>)
    requires i < |lines|
    ensures r.Success? ==> i <= r.value.1 < |lines|
    ensures r.Success? ==> '"' !in r.value.0 && EndsWith(r.value.0, LineBreak)
  {
    match CommentClose(wrap, lines, i, i)
    case Failure(e) => Failure(e)
    case Success(j) => Success((RenderComment(Segments(wrap, lines, i, j + 1)), j))
  }

  /** `read_comment`: gathers wrapped lines from line `i` until the gathered pieces end with a quote. */
  method ReadComment(wrap: Wrapper, i: nat, lines: seq<string>) returns (r: Result<(string, nat), ParseError>)
    requires i < |lines|
    ensures r == CommentAt(wrap, lines, i)
  {
    var commentLines: seq<string> := [];
    var j := i;
    while true
      invariant i <= j < |lines|
      invariant commentLines == Segments(wrap, lines, i, j)
      invariant CommentClose(wrap, lines, i, j) == CommentClose(wrap, lines, i, i)
      decreases |lines| - j
    {
      commentLines := commentLines + wrap(Strip(lines[j]), WrapWidth);
      if |commentLines| == 0 {
        return Failure(EmptyCommentLine(j));
      }
      if Closes(commentLines) {
        break;
      }
      j := j + 1;
      if j == |lines| {
        return Failure(UnterminatedComment(i));
      }
    }
    r := Success((RenderComment(commentLines), j));
  }

  // ---------------------------------------------------------------- extract_node_info

  /** The scan of `extract_node_info` from line `i`, with the entries `info` recorded so far. */
  function Scan(wrap: Wrapper, lines: seq<string>, i: nat, info: map<string, NodeInfo>)
    : Result<map<string, NodeInfo>, ParseError>
    requires i <= |lines|
    decreases |lines| - i
  {
    if i == |lines| then Success(info)
    else if !IsNodeLine(lines[i]) then Scan(wrap, lines, i + 1, info)
    else
      var name := GetNodeName(lines[i]);
      if name in info then Failure(DuplicateNode(name))
      else
        var complete := IsCompleteLine(lines[i]);
        if i + 1 < |lines| && IsCommentStartLine(lines[i + 1]) then
          match CommentAt(wrap, lines, i + 1)
          case Failure(e) => Failure(e)
          case Success((comment, j)) => Scan(wrap, lines, j, info[name := NodeInfo(name, complete, comment)])
        else Scan(wrap, lines, i + 1, info[name := NodeInfo(name, complete, "")])
  }

  /** `extract_node_info`: one entry per declared node, keyed by its name. */
  method ExtractNodeInfo(wrap: Wrapper, lines: seq<string>) returns (r: Result<map<string, NodeInfo>, ParseError>)
    ensures r == Scan(wrap, lines, 0, map[])
  {
    var info: map<string, NodeInfo> := map[];
    var i := 0;
    while i < |lines|
      invariant i <= |lines|
      invariant Scan(wrap, lines, i, info) == Scan(wrap, lines, 0, map[])
      decreases |lines| - i
    {
      var line := lines[i];
      if IsNodeLine(line) {
        var name := GetNodeName(line);
        if name in info {
          return Failure(DuplicateNode(name));
        }
        var complete := IsCompleteLine(line);
        var next, entry := NextDeclaration(wrap, lines, i, name, complete);
        if next.Failure? {
          return Failure(next.error);
        }
        info, i := info[name := entry], next.value;
      } else {
        i := i + 1;
      }
    }
    r := Success(info);
  }

  /** The part of one step of `extract_node_info` after a declaration on line `i`: reads the
      comment block on the next line, if any, and says where the scan resumes. */
  method NextDeclaration(wrap: Wrapper, lines: seq<string>, i: nat, name: string, complete: bool)
    returns (next: Result<nat, ParseError>, entry: NodeInfo)
    requires i < |lines| && IsNodeLine(lines[i])
    requires name == GetNodeName(lines[i]) && complete == IsCompleteLine(lines[i])
    ensures next.Success? ==> i < next.value <= |lines|
    ensures forall info: map<string, NodeInfo> | name !in info ::
      Scan(wrap, lines, i, info) == (if next.Failure? then Failure(next.error) else Scan(wrap, lines, next.value, info[name := entry]))
  {
    if i + 1 < |lines| && IsCommentStartLine(lines[i + 1]) {
      var c := ReadComment(wrap, i + 1, lines);
      if c.Failure? {
        next, entry := Failure(c.error), NodeInfo(name, complete, "");
      } else {
        next, entry := Success(c.value.1), NodeInfo(name, complete, c.value.0);
      }
    } else {
      next, entry := Success(i + 1), NodeInfo(name, complete, "");
    }
  }

  /** The comment a declaration on line `p` receives: the block opened on the next line, if any. */
  function DeclaredComment(wrap: Wrapper, lines: seq<string>, p: nat): string
    requires p < |lines|
  {
    if p + 1 < |lines| && IsCommentStartLine(lines[p + 1]) then
      match CommentAt(wrap, lines, p + 1)
      case Success((comment, _)) => comment
      case Failure(_) => ""
    else ""
  }

  /** The entry the declaration on line `p` yields. */
  function Entry(wrap: Wrapper, lines: seq<string>, p: nat): NodeInfo
    requires p < |lines|
  {
    NodeInfo(GetNodeName(lines[p]), IsCompleteLine(lines[p]), DeclaredComment(wrap, lines, p))
  }

  /** The entries the node lines at or after `i` yield. */
  ghost function DeclaredFrom(wrap: Wrapper, lines: seq<string>, i: nat): set<NodeInfo> {
    set p | i <= p < |lines| && IsNodeLine(lines[p]) :: Entry(wrap, lines, p)
  }

  lemma DeclaredFromShrinks(wrap: Wrapper, lines: seq<string>, i: nat, j: nat)
    requires i <= j
    ensures DeclaredFrom(wrap, lines, j) <= DeclaredFrom(wrap, lines, i)
  {
  }

  /** `out` keeps every entry of `info`. */
  ghost predicate KeepsEntries(info: map<string, NodeInfo>, out: map<string, NodeInfo>) {
    forall n :: n in info ==> n in out && out[n] == info[n]
  }

  /** Every entry of `out` missing from `info` is keyed by its own name and is one of `decls`. */
  ghost predicate AddsFrom(info: map<string, NodeInfo>, out: map<string, NodeInfo>, decls: set<NodeInfo>) {
    forall n :: n in out && n !in info ==> out[n].name == n && out[n] in decls
  }

  /** A successful scan keeps the entries it started with, and every entry it adds is
      keyed by its own name and is the entry of a node line at or after `i`. */
  lemma {:induction false} ScanSound(wrap: Wrapper, lines: seq<string>, i: nat, info: map<string, NodeInfo>)
    requires i <= |lines|
    ensures Scan(wrap, lines, i, info).Success? ==>
              && KeepsEntries(info, Scan(wrap, lines, i, info).value)
              && AddsFrom(info, Scan(wrap, lines, i, info).value, DeclaredFrom(wrap, lines, i))
    decreases |lines| - i
  {
    if i < |lines| {
      if !IsNodeLine(lines[i]) {
        assert Scan(wrap, lines, i, info) == Scan(wrap, lines, i + 1, info);
        ScanSound(wrap, lines, i + 1, info);
        DeclaredFromShrinks(wrap, lines, i, i + 1);
      } else {
        var name := GetNodeName(lines[i]);
        var complete := IsCompleteLine(lines[i]);
        if name !in info {
          var e := Entry(wrap, lines, i);
          var next: nat;
          if i + 1 < |lines| && IsCommentStartLine(lines[i + 1]) {
            var c := CommentAt(wrap, lines, i + 1);
            if c.Failure? {
              return;
            }
            assert e == NodeInfo(name, complete, c.value.0);
            next := c.value.1;
          } else {
            assert e == NodeInfo(name, complete, "");
            next := i + 1;
          }
          assert Scan(wrap, lines, i, info) == Scan(wrap, lines, next, info[name := e]);
          assert e in DeclaredFrom(wrap, lines, i);
          ScanSound(wrap, lines, next, info[name := e]);
          DeclaredFromShrinks(wrap, lines, i, next);
          var r := Scan(wrap, lines, next, info[name := e]);
          if r.Success? {
            StepSound(info, e, r.value, DeclaredFrom(wrap, lines, next), DeclaredFrom(wrap, lines, i));
          }
        }
      }
    }
  }

  /** One declaration step of `ScanSound`: recording `e` and then scanning on to `out`. */
  lemma StepSound(info: map<string, NodeInfo>, e: NodeInfo, out: map<string, NodeInfo>,
                  later: set<NodeInfo>, decls: set<NodeInfo>)
    requires e.name !in info && e in decls && later <= decls
    requires KeepsEntries(info[e.name := e], out) && AddsFrom(info[e.name := e], out, later)
    ensures KeepsEntries(info, out) && AddsFrom(info, out, decls)
  {
    var updated := info[e.name := e];
    forall n | n in info ensures n in out && out[n] == info[n] {
      assert n in updated && updated[n] == info[n];
    }
    forall n | n in out && n !in info ensures out[n].name == n && out[n] in decls {
      if n == e.name {
        assert out[n] == updated[n] == e;
      }
    }
  }

  /** The names declared by the node lines at or after `i`, in file order. */
  function NodeNames(lines: seq<string>, i: nat): seq<string>
    requires i <= |lines|
  {
    Selected(lines, i, IsNodeLine, GetNodeName)
  }

  /** `NodeNames` lists the names of the node lines at or after `i`, and nothing else. */
  lemma NodeNamesMembers(lines: seq<string>, i: nat, n: string)
    requires i <= |lines|
    ensures n in NodeNames(lines, i) <==> exists p :: i <= p < |lines| && IsNodeLine(lines[p]) && GetNodeName(lines[p]) == n
  {
    SelectedMembers(lines, i, IsNodeLine, GetNodeName, n);
  }

  /** In a file where no declaration is directly followed by a quoted line (so no comment
      block is read; quoted lines elsewhere are skipped like any other line), the scan succeeds exactly when no name is declared
      twice (or was already recorded); its keys are then the recorded and declared names,
      and a failure names a node declared twice or declared once and already recorded. */
  lemma {:induction false} ScanWithoutComments(wrap: Wrapper, lines: seq<string>, i: nat, info: map<string, NodeInfo>)
    requires i <= |lines|
    requires forall k :: i <= k && k + 1 < |lines| && IsNodeLine(lines[k]) ==> !IsCommentStartLine(lines[k + 1])
    ensures var names := NodeNames(lines, i);
            Scan(wrap, lines, i, info).Success? <==> Distinct(names) && forall n :: n in names ==> n !in info
    ensures Scan(wrap, lines, i, info).Success? ==>
              forall n :: n in Scan(wrap, lines, i, info).value <==> n in info || n in NodeNames(lines, i)
    ensures Scan(wrap, lines, i, info).Failure? ==>
              var err := Scan(wrap, lines, i, info).error;
              err.DuplicateNode? && err.name in NodeNames(lines, i) &&
              (err.name in info || Repeated(err.name, NodeNames(lines, i)))
    decreases |lines| - i
  {
    if i < |lines| {
      if !IsNodeLine(lines[i]) {
        assert Scan(wrap, lines, i, info) == Scan(wrap, lines, i + 1, info);
        assert NodeNames(lines, i) == NodeNames(lines, i + 1);
        ScanWithoutComments(wrap, lines, i + 1, info);
      } else {
        var name := GetNodeName(lines[i]);
        var rest := NodeNames(lines, i + 1);
        assert NodeNames(lines, i) == [name] + rest;
        if name in info {
          assert Scan(wrap, lines, i, info) == Failure(DuplicateNode(name));
        } else {
          var e := NodeInfo(name, IsCompleteLine(lines[i]), "");
          assert Scan(wrap, lines, i, info) == Scan(wrap, lines, i + 1, info[name := e]);
          ScanWithoutComments(wrap, lines, i + 1, info[name := e]);
          var r := Scan(wrap, lines, i + 1, info[name := e]);
          StepFresh(name, rest, info, e, r.Success?);
          if r.Success? {
            assert forall n :: n in r.value <==> n in info || n in [name] + rest;
          } else if r.error.name !in info {
            RepeatedCons(r.error.name, name, rest);
          }
        }
      }
    }
  }

  /** One declaration step of `ScanWithoutComments`: a name new to `info`, followed by `rest`. */
  lemma StepFresh(name: string, rest: seq<string>, info: map<string, NodeInfo>, e: NodeInfo, ok: bool)
    requires name !in info
    requires ok <==> Distinct(rest) && forall n :: n in rest ==> n !in info[name := e]
    ensures ok <==> Distinct([name] + rest) && forall n :: n in [name] + rest ==> n !in info
  {
    DistinctCons(name, rest);
  }

  /** The scan resumes at the line that closes a comment, not after it: when that line is
      itself a node line (a line such as `-b"` ends a comment and declares a node), a
      successful scan records it too. */
  lemma ClosingLineDeclared(wrap: Wrapper, lines: seq<string>, i: nat, info: map<string, NodeInfo>)
    requires i + 1 < |lines| && IsNodeLine(lines[i]) && GetNodeName(lines[i]) !in info
    requires IsCommentStartLine(lines[i + 1]) && CommentAt(wrap, lines, i + 1).Success?
    ensures var j := CommentAt(wrap, lines, i + 1).value.1;
            IsNodeLine(lines[j]) && Scan(wrap, lines, i, info).Success? ==>
              GetNodeName(lines[j]) in Scan(wrap, lines, i, info).value
  {
    var j := CommentAt(wrap, lines, i + 1).value.1;
    var info' := info[GetNodeName(lines[i]) := Entry(wrap, lines, i)];
    assert Scan(wrap, lines, i, info) == Scan(wrap, lines, j, info');
    NodeLineRecorded(wrap, lines, j, info');
  }

  /** A node line the scan stands on is recorded by a successful scan. */
  lemma NodeLineRecorded(wrap: Wrapper, lines: seq<string>, j: nat, info: map<string, NodeInfo>)
    requires j < |lines|
    ensures IsNodeLine(lines[j]) && Scan(wrap, lines, j, info).Success? ==>
              GetNodeName(lines[j]) in Scan(wrap, lines, j, info).value
  {
    if IsNodeLine(lines[j]) {
      var name := GetNodeName(lines[j]);
      if name !in info {
        var e := Entry(wrap, lines, j);
        var next: nat;
        if j + 1 < |lines| && IsCommentStartLine(lines[j + 1]) {
          var c := CommentAt(wrap, lines, j + 1);
          if c.Failure? {
            return;
          }
          next := c.value.1;
        } else {
          next := j + 1;
        }
        assert Scan(wrap, lines, j, info) == Scan(wrap, lines, next, info[name := e]);
        ScanSound(wrap, lines, next, info[name := e]);
      }
    }
  }

  // ---------------------------------------------------------------- read_deps

  /** `[l.lower() for l in lines]`. */
  function LowerAll(lines: seq<string>): (r: seq<string>)
    ensures |r| == |lines| && forall k :: 0 <= k < |lines| ==> r[k] == Lower(lines[k])
  {
    Map(lines, Lower)
  }

  /** A line marked as part of the graph: it starts with `-`. */
  predicate IsMarked(line: string) {
    StartsWith(line, "-")
  }

  /** A marked line with its leading `-` removed, trimmed. */
  function DepBody(line: string): string {
    Strip(StripPrefix(line, "-"))
  }

  /** A body that states a dependency: it contains `->`. */
  predicate HasArrow(body: string) {
    Contains(body, Arrow)
  }

  /** The dependency strings of `read_deps`: the marked lines, with the `-` removed and
      trimmed, that contain `->`, in file order. */
  function DepLines(lines: seq<string>): seq<string> {
    Filter(Map(Filter(lines, IsMarked), DepBody), HasArrow)
  }

  /** Reading two parts of a file gives the dependencies of the two parts, in order. */
  lemma DepLinesAppend(a: seq<string>, b: seq<string>)
    ensures DepLines(a + b) == DepLines(a) + DepLines(b)
  {
    FilterAppend(a, b, IsMarked);
    MapAppend(Filter(a, IsMarked), Filter(b, IsMarked), DepBody);
    FilterAppend(Map(Filter(a, IsMarked), DepBody), Map(Filter(b, IsMarked), DepBody), HasArrow);
  }

  /** A string is a dependency exactly when it contains `->` and is the body of a marked line. */
  lemma DepLinesMembers(lines: seq<string>, d: string)
    ensures d in DepLines(lines) <==> HasArrow(d) && exists l :: l in lines && IsMarked(l) && DepBody(l) == d
  {
    var marked := Filter(lines, IsMarked);
    FilterMembers(Map(marked, DepBody), HasArrow, d);
    MapMembers(marked, DepBody, d);
    forall l ensures l in marked <==> l in lines && IsMarked(l) {
      FilterMembers(lines, IsMarked, l);
    }
  }

  /** `read_deps` on the lines of the file: the dependency strings and the node entries. */
  method ReadDeps(wrap: Wrapper, fileLines: seq<string>)
    returns (r: Result<(seq<string>, map<string, NodeInfo>), ParseError>)
    ensures var lines := LowerAll(fileLines);
            match Scan(wrap, lines, 0, map[])
            case Failure(e) => r == Failure(e)
            case Success(info) => r == Success((DepLines(lines), info))
  {
    var lines := LowerAll(fileLines);
    var info := ExtractNodeInfo(wrap, lines);
    if info.Failure? {
      return Failure(info.error);
    }
    r := Success((DepLines(lines), info.value));
  }
}
