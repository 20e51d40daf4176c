/**
 * The Graphviz text that `RepositoryGraph.into_dot` emits. The layout is reproduced as the
 * original writes it, `header \n <space>nodes \n <space>edges \n <space>} \n`, so the first node
 * line, the first edge line and the closing brace each start with one space. Identifiers are
 * pasted in without quoting or escaping.
 */
module DotFormat {
  import opened Graphs

  /** The four lines of the header. */
  const HeaderLines: seq<string> := ["digraph \"leapp-actors\" {", "nodesep=2", "ranksep=2", "rankdir=LR"]

  /** `digraph "leapp-actors" {\nnodesep=2\nranksep=2\nrankdir=LR`, with no trailing newline. */
  const Header: string := HeaderLines[0] + "\n" + (HeaderLines[1] + "\n" + (HeaderLines[2] + "\n" + HeaderLines[3]))
  const Footer: string := "}"

  /** The declaration of one actor node. */
  function NodeLine(actor: string): string {
    actor + " [label=" + actor + "]"
  }

  /** The declaration of one labelled edge. */
  function EdgeLine(tr: Triple): string {
    tr.source + " -> " + tr.target + " [label=" + tr.msg + "]"
  }

  function NodeLines(actors: seq<string>): (r: seq<string>)
    ensures |r| == |actors| && forall i :: 0 <= i < |actors| ==> r[i] == NodeLine(actors[i])
  {
    seq(|actors|, i requires 0 <= i < |actors| => NodeLine(actors[i]))
  }

  function EdgeLines(triples: seq<Triple>): (r: seq<string>)
    ensures |r| == |triples| && forall i :: 0 <= i < |triples| ==> r[i] == EdgeLine(triples[i])
  {
    seq(|triples|, i requires 0 <= i < |triples| => EdgeLine(triples[i]))
  }

  /** `'\n'.join(lines)`. */
  function Join(lines: seq<string>): string {
    if |lines| == 0 then ""
    else if |lines| == 1 then lines[0]
    else lines[0] + "\n" + Join(lines[1..])
  }

  /**
   * The whole text, with nodes and edges in the order the sets were iterated: the header, then
   * newline-space before the joined node lines, the joined edge lines and the footer, and a
   * final newline.
   */
  function Render(actors: seq<string>, triples: seq<Triple>): string {
    Layout(Header, Join(NodeLines(actors)), Join(EdgeLines(triples)))
  }

  /** `'{header}\n {nodes}\n {edges}\n {footer}\n'`, grouped from the right. */
  function Layout(header: string, nodes: string, edges: string): string {
    header + "\n" + (" " + nodes + "\n" + (" " + edges + "\n" + (" " + Footer + "\n" + "")))
  }

  /** `s.split('\n')`: the pieces of `s` between newline characters. */
  function Split(s: string): (r: seq<string>)
    ensures |r| > 0
  {
    if s == [] then [""]
    else
      var rest := Split(s[1..]);
      if s[0] == '\n' then [""] + rest else [[s[0]] + rest[0]] + rest[1..]
  }

  /** `[""]` for no lines, since the join of no lines is the empty string. */
  function OrBlank(lines: seq<string>): (r: seq<string>)
    ensures |r| > 0
  {
    if lines == [] then [""] else lines
  }

  /** The lines with one space put in front of the first. */
  function Indented(lines: seq<string>): seq<string>
    requires |lines| > 0
  {
    [" " + lines[0]] + lines[1..]
  }

  ghost predicate NoNewlines(lines: seq<string>) {
    forall i :: 0 <= i < |lines| ==> '\n' !in lines[i]
  }

  lemma {:induction false} SplitSingleLine(s: string)
    requires '\n' !in s
    ensures Split(s) == [s]
  {
    if s != [] {
      SplitSingleLine(s[1..]);
      assert [s[0]] + s[1..] == s;
    }
  }

  /** Splitting at a newline splits the two sides independently. */
  lemma {:induction false} SplitAppend(a: string, b: string)
    ensures Split(a + "\n" + b) == Split(a) + Split(b)
  {
    var s := a + "\n" + b;
    if a == [] {
      assert s[0] == '\n' && s[1..] == b;
    } else {
      assert s[0] == a[0] && s[1..] == a[1..] + "\n" + b;
      SplitAppend(a[1..], b);
      var head := Split(a[1..]);
      var rest := Split(s[1..]);
      assert rest == head + Split(b);
      if a[0] != '\n' {
        assert rest[0] == head[0] && rest[1..] == head[1..] + Split(b);
      }
    }
  }

  /** A leading space joins the first piece. */
  lemma SplitSpace(s: string)
    ensures Split(" " + s) == Indented(Split(s))
  {
    assert (" " + s)[1..] == s;
  }

  /** Joining lines without newlines and splitting again gives the lines back. */
  lemma {:induction false} SplitJoin(lines: seq<string>)
    requires NoNewlines(lines)
    ensures Split(Join(lines)) == OrBlank(lines)
  {
    if |lines| == 1 {
      SplitSingleLine(lines[0]);
    } else if |lines| > 1 {
      assert NoNewlines(lines[1..]);
      SplitJoin(lines[1..]);
      SplitAppend(lines[0], Join(lines[1..]));
      SplitSingleLine(lines[0]);
    }
  }

  lemma NodeLinesNoNewlines(actors: seq<string>)
    requires forall i :: 0 <= i < |actors| ==> '\n' !in actors[i]
    ensures NoNewlines(NodeLines(actors))
  {
    forall i | 0 <= i < |actors| ensures '\n' !in NodeLine(actors[i]) {
      var a := actors[i];
      assert forall j :: 0 <= j < |NodeLine(a)| ==> NodeLine(a)[j] in a || NodeLine(a)[j] in " [label=]";
    }
  }

  lemma EdgeLinesNoNewlines(triples: seq<Triple>)
    requires forall i :: 0 <= i < |triples| ==>
      '\n' !in triples[i].source && '\n' !in triples[i].msg && '\n' !in triples[i].target
    ensures NoNewlines(EdgeLines(triples))
  {
    forall i | 0 <= i < |triples| ensures '\n' !in EdgeLine(triples[i]) {
      var tr := triples[i];
      var l := EdgeLine(tr);
      assert forall j :: 0 <= j < |l| ==>
        l[j] in tr.source || l[j] in tr.target || l[j] in tr.msg || l[j] in " -> [label=]";
    }
  }

  /**
   * The rendered text, read line by line when no name contains a newline: the four header
   * lines, one line per actor, one line per edge triple, the closing brace, and the empty
   * piece after the final newline. The first node line, the first edge line and the brace
   * carry one leading space; with no actors (or no edges) a line holding only that space
   * stands in their place.
   */
  lemma RenderLines(actors: seq<string>, triples: seq<Triple>)
    requires forall i :: 0 <= i < |actors| ==> '\n' !in actors[i]
    requires forall i :: 0 <= i < |triples| ==>
      '\n' !in triples[i].source && '\n' !in triples[i].msg && '\n' !in triples[i].target
    ensures Split(Render(actors, triples)) ==
      HeaderLines
      + Indented(OrBlank(NodeLines(actors)))
      + Indented(OrBlank(EdgeLines(triples)))
      + [" }", ""]
  {
    HeaderSplit();
    NodeLinesNoNewlines(actors);
    EdgeLinesNoNewlines(triples);
    SplitLayout(Header, NodeLines(actors), EdgeLines(triples));
  }

  /** The header text is its four lines joined by newlines. */
  lemma HeaderSplit()
    ensures Split(Header) == HeaderLines
  {
    var l0, l1, l2, l3 := HeaderLines[0], HeaderLines[1], HeaderLines[2], HeaderLines[3];
    assert '\n' !in l0 && '\n' !in l1 && '\n' !in l2 && '\n' !in l3;
    SplitFour(l0, l1, l2, l3);
  }

  /** The layout of Render, for any header. */
  lemma SplitLayout(header: string, nodeLines: seq<string>, edgeLines: seq<string>)
    requires NoNewlines(nodeLines) && NoNewlines(edgeLines)
    ensures Split(Layout(header, Join(nodeLines), Join(edgeLines))) ==
      Split(header) + Indented(OrBlank(nodeLines)) + Indented(OrBlank(edgeLines)) + [" }", ""]
  {
    var tail3 := " " + Footer + "\n" + "";
    var tail2 := " " + Join(edgeLines) + "\n" + tail3;
    var tail1 := " " + Join(nodeLines) + "\n" + tail2;
    FooterSplit();
    SplitIndentedLine(edgeLines, tail3);
    SplitIndentedLine(nodeLines, tail2);
    SplitAppend(header, tail1);
  }

  /** A line of joined lines after one space, a newline and the rest. */
  lemma SplitIndentedLine(lines: seq<string>, tail: string)
    requires NoNewlines(lines)
    ensures Split(" " + Join(lines) + "\n" + tail) == Indented(OrBlank(lines)) + Split(tail)
  {
    SplitJoin(lines);
    SplitSpace(Join(lines));
    SplitAppend(" " + Join(lines), tail);
  }

  lemma FooterSplit()
    ensures Split(" " + Footer + "\n" + "") == [" }", ""]
  {
    assert " " + Footer == " }";
    SplitAppend(" }", "");
    SplitSingleLine(" }");
    SplitSingleLine("");
  }

  /** Four newline-free lines joined by newlines split back into those four lines. */
  lemma SplitFour(l0: string, l1: string, l2: string, l3: string)
    requires '\n' !in l0 && '\n' !in l1 && '\n' !in l2 && '\n' !in l3
    ensures Split(l0 + "\n" + (l1 + "\n" + (l2 + "\n" + l3))) == [l0, l1, l2, l3]
  {
    SplitSingleLine(l0);
    SplitSingleLine(l1);
    SplitSingleLine(l2);
    SplitSingleLine(l3);
    SplitAppend(l2, l3);
    SplitAppend(l1, l2 + "\n" + l3);
    SplitAppend(l0, l1 + "\n" + (l2 + "\n" + l3));
  }
}
