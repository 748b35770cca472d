/**
 * The directed edge graph of the search exercises: a text whose lines read
 * `name neighbour dist neighbour dist ...` becomes a map from each node name
 * to its outgoing (neighbour, distance) edges. Reading the file is left to
 * the caller; `Load` works on its contents.
 */
module Deg {
  import opened Wrappers
  import opened Text
  import opened Collections

  /** `names` lists the nodes in dictionary insertion order; `edges` maps each
      of them to its outgoing edges in the order they were read. */
  datatype Graph = Graph(names: seq<string>, edges: map<string, seq<(string, int)>>)

  /** The first occurrence of every element, in order. */
  function Dedup(s: seq<string>): (r: seq<string>)
    ensures Distinct(r)
    ensures forall x :: x in r <==> x in s
  {
    if s == [] then []
    else
      var d := Dedup(s[..|s| - 1]);
      assert forall x :: x in s <==> x in s[..|s| - 1] || x == s[|s| - 1];
      if s[|s| - 1] in d then d else d + [s[|s| - 1]]
  }

  /** First pass of `load`: the first word of every non-empty line. A line
      holding only whitespace has no first word: `words[0]` raises. */
  function Heads(lines: seq<string>): (r: Result<seq<string>>)
    ensures r.Success? <==> forall i :: 0 <= i < |lines| && lines[i] != "" ==> Words(lines[i]) != []
  {
    if lines == [] then Success([])
    else if lines[0] == "" then Heads(lines[1..])
    else if Words(lines[0]) == [] then Failure(IndexError)
    else
      var rest :- Heads(lines[1..]);
      Success([Words(lines[0])[0]] + rest)
  }

  /** A node heads some non-empty line. */
  predicate IsHead(lines: seq<string>, n: string)
  {
    exists i :: 0 <= i < |lines| && lines[i] != "" && Words(lines[i]) != [] && Words(lines[i])[0] == n
  }

  lemma {:induction false} HeadsAreHeads(lines: seq<string>)
    requires Heads(lines).Success?
    ensures forall n :: n in Heads(lines).value <==> IsHead(lines, n)
  {
    if lines != [] {
      HeadsAreHeads(lines[1..]);
      forall n
        ensures IsHead(lines, n) <==> (lines[0] != "" && Words(lines[0])[0] == n) || IsHead(lines[1..], n)
      {
        if IsHead(lines, n) {
          var i :| 0 <= i < |lines| && lines[i] != "" && Words(lines[i]) != [] && Words(lines[i])[0] == n;
          if i > 0 { assert lines[1..][i - 1] == lines[i]; }
        }
        if IsHead(lines[1..], n) {
          var i :| 0 <= i < |lines[1..]| && lines[1..][i] != "" && Words(lines[1..][i]) != [] && Words(lines[1..][i])[0] == n;
          assert lines[i + 1] == lines[1..][i];
        }
      }
    }
  }

  /** The words after the head, consumed as (neighbour, distance) pairs:
      a lone trailing word pops an empty list, a distance that is not an
      integer fails `int()`, and a neighbour that heads no line is a missing
      key — checked in that order for each pair. */
  function ParsePairs(words: seq<string>, nodes: set<string>): (r: Result<seq<(string, int)>>)
    ensures r.Success? <==> PairsOk(words, nodes)
    ensures r.Success? ==> |r.value| == |words| / 2
    ensures r.Success? ==> forall i :: 0 <= i < |r.value| ==>
      && r.value[i].0 == words[2 * i]
      && ParseInt(words[2 * i + 1]) == Some(r.value[i].1)
      && r.value[i].0 in nodes
    decreases |words|
  {
    if words == [] then Success([])
    else if |words| == 1 then Failure(IndexError)
    else
      PairsOkStep(words, nodes);
      if ParseInt(words[1]).None? then Failure(ValueError)
      else if words[0] !in nodes then Failure(KeyError)
      else
        var rest :- ParsePairs(words[2..], nodes);
        var r := [(words[0], ParseInt(words[1]).value)] + rest;
        assert forall i :: 1 <= i < |r| ==> r[i] == rest[i - 1];
        assert forall i :: 1 <= i < |r| ==> words[2 * i] == words[2..][2 * (i - 1)];
        assert forall i :: 1 <= i < |r| ==> words[2 * i + 1] == words[2..][2 * (i - 1) + 1];
        Success(r)
  }

  /** The declarative reading of a well-formed edge list: an even number of
      words, each even-placed one a node and each odd-placed one an integer. */
  predicate PairsOk(words: seq<string>, nodes: set<string>)
  {
    && |words| % 2 == 0
    && forall i :: 0 <= i < |words| && i % 2 == 0 ==>
         words[i] in nodes && ParseInt(words[i + 1]).Some?
  }

  lemma PairsOkStep(words: seq<string>, nodes: set<string>)
    requires |words| >= 2
    ensures PairsOk(words, nodes) <==>
      ParseInt(words[1]).Some? && words[0] in nodes && PairsOk(words[2..], nodes)
  {
    var rest := words[2..];
    if PairsOk(words, nodes) {
      forall i | 0 <= i < |rest| && i % 2 == 0
        ensures rest[i] in nodes && ParseInt(rest[i + 1]).Some?
      {
        assert (i + 2) % 2 == 0;
        assert rest[i] == words[i + 2];
        assert rest[i + 1] == words[i + 2 + 1];
      }
      assert |rest| % 2 == 0 by {
        assert |words| == |rest| + 2;
      }
      assert PairsOk(rest, nodes);
      assert 0 % 2 == 0 && 0 < |words|;
      assert words[0] in nodes && ParseInt(words[1]).Some?;
    }
    if ParseInt(words[1]).Some? && words[0] in nodes && PairsOk(rest, nodes) {
      assert |words| == |rest| + 2 && |words| % 2 == 0;
      forall i | 0 <= i < |words| && i % 2 == 0
        ensures words[i] in nodes && ParseInt(words[i + 1]).Some?
      {
        if i > 0 {
          assert i >= 2 && (i - 2) % 2 == 0;
          assert words[i] == rest[i - 2];
          assert words[i + 1] == rest[i - 2 + 1];
        }
      }
      assert PairsOk(words, nodes);
    }
  }

  /** Second pass of `load`: the edges of each line are appended to its head. */
  function EdgesFrom(lines: seq<string>, nodes: set<string>, acc: map<string, seq<(string, int)>>)
    : (r: Result<map<string, seq<(string, int)>>>)
    ensures r.Success? ==> r.value.Keys == acc.Keys + HeadSet(lines)
  {
    if lines == [] then Success(acc)
    else if lines[0] == "" then EdgesFrom(lines[1..], nodes, acc)
    else
      var words := Words(lines[0]);
      if words == [] then Failure(IndexError)
      else
        var pairs :- ParsePairs(words[1..], nodes);
        var h := words[0];
        EdgesFrom(lines[1..], nodes, AddLine(acc, h, pairs))
  }

  /** The heads of the non-empty lines as a set. */
  function HeadSet(lines: seq<string>): set<string>
  {
    if lines == [] then {}
    else if lines[0] == "" || Words(lines[0]) == [] then HeadSet(lines[1..])
    else {Words(lines[0])[0]} + HeadSet(lines[1..])
  }

  /** A line of the file is well formed: a head, then (neighbour, distance)
      pairs whose neighbours head lines of the file. */
  predicate LineOk(line: string, nodes: set<string>)
  {
    Words(line) != [] && PairsOk(Words(line)[1..], nodes)
  }

  lemma {:induction false} EdgesFromSucceeds(lines: seq<string>, nodes: set<string>, acc: map<string, seq<(string, int)>>)
    ensures EdgesFrom(lines, nodes, acc).Success? <==>
      forall i :: 0 <= i < |lines| && lines[i] != "" ==> LineOk(lines[i], nodes)
  {
    if lines != [] {
      if lines[0] != "" && Words(lines[0]) != [] && ParsePairs(Words(lines[0])[1..], nodes).Success? {
        var words := Words(lines[0]);
        var pairs := ParsePairs(words[1..], nodes).value;
        var h := words[0];
        EdgesFromSucceeds(lines[1..], nodes, AddLine(acc, h, pairs));
      } else {
        EdgesFromSucceeds(lines[1..], nodes, acc);
      }
      LinesOkStep(lines, nodes);
    }
  }

  lemma LinesOkStep(lines: seq<string>, nodes: set<string>)
    requires lines != []
    ensures (forall i :: 0 <= i < |lines| && lines[i] != "" ==> LineOk(lines[i], nodes)) <==>
      && (lines[0] != "" ==> LineOk(lines[0], nodes))
      && (forall i :: 0 <= i < |lines| - 1 && lines[1..][i] != "" ==> LineOk(lines[1..][i], nodes))
  {
    assert forall i :: 1 <= i < |lines| ==> lines[i] == lines[1..][i - 1];
  }

  lemma {:induction false} HeadSetIsHeads(lines: seq<string>)
    requires Heads(lines).Success?
    ensures HeadSet(lines) == set n | n in Heads(lines).value
  {
    if lines != [] {
      HeadSetIsHeads(lines[1..]);
    }
  }

  /** The edges a well-formed text gives node `n`: the pairs of every line
      headed by `n`, lines in file order. */
  function EdgesOf(lines: seq<string>, nodes: set<string>, n: string): seq<(string, int)>
  {
    if lines == [] then []
    else if lines[0] == "" || Words(lines[0]) == [] || Words(lines[0])[0] != n
         || ParsePairs(Words(lines[0])[1..], nodes).Failure? then EdgesOf(lines[1..], nodes, n)
    else ParsePairs(Words(lines[0])[1..], nodes).value + EdgesOf(lines[1..], nodes, n)
  }

  /** The accumulator after one line: its head gains the line's pairs. */
  function AddLine(acc: map<string, seq<(string, int)>>, h: string, pairs: seq<(string, int)>): map<string, seq<(string, int)>>
  {
    acc[h := Get(acc, h) + pairs]
  }

  function Get(acc: map<string, seq<(string, int)>>, n: string): seq<(string, int)>
  {
    if n in acc then acc[n] else []
  }

  /** One non-empty line of the second pass. */
  lemma EdgesFromStep(lines: seq<string>, nodes: set<string>, acc: map<string, seq<(string, int)>>)
    requires lines != [] && lines[0] != ""
    requires EdgesFrom(lines, nodes, acc).Success?
    ensures Words(lines[0]) != [] && ParsePairs(Words(lines[0])[1..], nodes).Success?
    ensures EdgesFrom(lines, nodes, acc) ==
      EdgesFrom(lines[1..], nodes, AddLine(acc, Words(lines[0])[0], ParsePairs(Words(lines[0])[1..], nodes).value))
  {
  }

  /** How a line headed by `h` with parsed pairs `pairs` contributes to `EdgesOf`. */
  lemma EdgesOfStep(lines: seq<string>, nodes: set<string>, n: string)
    requires lines != [] && lines[0] != "" && Words(lines[0]) != []
    requires ParsePairs(Words(lines[0])[1..], nodes).Success?
    ensures EdgesOf(lines, nodes, n) ==
      if Words(lines[0])[0] == n then ParsePairs(Words(lines[0])[1..], nodes).value + EdgesOf(lines[1..], nodes, n)
      else EdgesOf(lines[1..], nodes, n)
  {
  }

  lemma {:induction false} EdgesFromValue(lines: seq<string>, nodes: set<string>, acc: map<string, seq<(string, int)>>, n: string)
    requires EdgesFrom(lines, nodes, acc).Success?
    requires n in EdgesFrom(lines, nodes, acc).value
    ensures EdgesFrom(lines, nodes, acc).value[n] == Get(acc, n) + EdgesOf(lines, nodes, n)
    decreases |lines|, 1
  {
    if lines == [] {
    } else if lines[0] == "" {
      assert EdgesOf(lines, nodes, n) == EdgesOf(lines[1..], nodes, n);
      assert EdgesFrom(lines, nodes, acc) == EdgesFrom(lines[1..], nodes, acc);
      EdgesFromValue(lines[1..], nodes, acc, n);
    } else {
      EdgesFromValueLine(lines, nodes, acc, n);
    }
  }

  /** The inductive step of `EdgesFromValue` for a non-empty first line. */
  lemma {:induction false} EdgesFromValueLine(lines: seq<string>, nodes: set<string>, acc: map<string, seq<(string, int)>>, n: string)
    requires lines != [] && lines[0] != ""
    requires EdgesFrom(lines, nodes, acc).Success?
    requires n in EdgesFrom(lines, nodes, acc).value
    ensures EdgesFrom(lines, nodes, acc).value[n] == Get(acc, n) + EdgesOf(lines, nodes, n)
    decreases |lines|, 0
  {
    EdgesFromStep(lines, nodes, acc);
    var words := Words(lines[0]);
    var pairs := ParsePairs(words[1..], nodes).value;
    var acc' := AddLine(acc, words[0], pairs);
    EdgesFromValue(lines[1..], nodes, acc', n);
    EdgesOfStep(lines, nodes, n);
    ConcatStep(EdgesFrom(lines, nodes, acc), EdgesFrom(lines[1..], nodes, acc'), n,
      Get(acc, n), Get(acc', n), pairs, EdgesOf(lines[1..], nodes, n), EdgesOf(lines, nodes, n), n == words[0]);
  }

  /** The bookkeeping of one step of `EdgesFromValue`, on plain values. */
  lemma ConcatStep<V>(e0: Result<map<string, seq<V>>>, e1: Result<map<string, seq<V>>>, n: string,
                      g0: seq<V>, g1: seq<V>, pairs: seq<V>, rest: seq<V>, total: seq<V>, isHead: bool)
    requires e0 == e1 && e1.Success? && n in e1.value && e1.value[n] == g1 + rest
    requires g1 == if isHead then g0 + pairs else g0
    requires total == if isHead then pairs + rest else rest
    ensures e0.value[n] == g0 + total
  {
    if isHead {
      assert g0 + pairs + rest == g0 + (pairs + rest);
    }
  }

  /** `DEG.load` on the file contents. */
  function Load(text: string): Result<Graph>
  {
    var lines := SplitOn(text, '\n');
    var heads :- Heads(lines);
    var names := Dedup(heads);
    var nodes := set n | n in names;
    var edges :- EdgesFrom(lines, nodes, map n | n in nodes :: []);
    Success(Graph(names, edges))
  }

  /** Every non-empty line of a well-formed graph text is well formed
      against the set of line heads. */
  predicate TextOk(text: string)
  {
    var lines := SplitOn(text, '\n');
    forall i :: 0 <= i < |lines| && lines[i] != "" ==> LineOk(lines[i], HeadSet(lines))
  }

  /** `load` raises exactly when a non-empty line is blank, has an odd
      trailing word, a non-integer distance or a neighbour that heads no line. */
  lemma LoadFails(text: string)
    ensures Load(text).Success? <==> TextOk(text)
  {
    var lines := SplitOn(text, '\n');
    var hs := Heads(lines);
    if hs.Success? {
      var nodes := set n | n in Dedup(hs.value);
      HeadSetIsHeads(lines);
      assert nodes == HeadSet(lines);
      EdgesFromSucceeds(lines, nodes, map n | n in nodes :: []);
    } else {
      var i :| 0 <= i < |lines| && lines[i] != "" && Words(lines[i]) == [];
      assert !LineOk(lines[i], HeadSet(lines));
    }
  }

  /** The nodes `load` creates are the line heads, each once, in order of
      first appearance, and each of them has an edge list. */
  lemma LoadNodes(text: string)
    requires Load(text).Success?
    ensures var g := Load(text).value;
      && Distinct(g.names)
      && (forall n :: n in g.names <==> IsHead(SplitOn(text, '\n'), n))
      && g.edges.Keys == set n | n in g.names
  {
    var lines := SplitOn(text, '\n');
    HeadSetIsHeads(lines);
    HeadsAreHeads(lines);
  }

  /** The edges of a loaded node are the pairs of every line it heads, in
      file order, and each leads to a node. */
  lemma LoadEdges(text: string, n: string)
    requires Load(text).Success?
    requires n in Load(text).value.edges
    ensures var lines := SplitOn(text, '\n');
      var g := Load(text).value;
      && g.edges[n] == EdgesOf(lines, HeadSet(lines), n)
      && forall e :: e in g.edges[n] ==> e.0 in g.names
  {
    var lines := SplitOn(text, '\n');
    var names := Dedup(Heads(lines).value);
    var nodes := set m | m in names;
    HeadSetIsHeads(lines);
    assert nodes == HeadSet(lines);
    var acc := map m | m in nodes :: [];
    EdgesFromValue(lines, nodes, acc, n);
    assert Get(acc, n) == [];
    forall e | e in EdgesOf(lines, nodes, n)
      ensures e.0 in names
    {
      EdgesTargets(lines, nodes, n, e);
    }
  }

  lemma {:induction false} EdgesTargets(lines: seq<string>, nodes: set<string>, n: string, e: (string, int))
    requires e in EdgesOf(lines, nodes, n)
    ensures e.0 in nodes
  {
    if lines != [] {
      if lines[0] == "" || Words(lines[0]) == [] || Words(lines[0])[0] != n
         || ParsePairs(Words(lines[0])[1..], nodes).Failure? {
        EdgesTargets(lines[1..], nodes, n, e);
      } else {
        var p := ParsePairs(Words(lines[0])[1..], nodes).value;
        if e in p {
          var i :| 0 <= i < |p| && p[i] == e;
        } else {
          EdgesTargets(lines[1..], nodes, n, e);
        }
      }
    }
  }

  /** `DEG.adj`: the (neighbour, distance) pairs of a node in insertion
      order; a name that is not a node is a missing key. */
  function Adj(g: Graph, n: string): (r: Result<seq<(string, int)>>)
    ensures r.Failure? <==> n !in g.edges
    ensures r.Success? ==> r.value == g.edges[n]
  {
    if n in g.edges then Success(g.edges[n]) else Failure(KeyError)
  }

  /** On a loaded graph `adj` answers exactly for the heads of the text's
      lines, with the pairs of every line the node heads, in file order. */
  lemma AdjOfLoad(text: string, n: string)
    requires Load(text).Success?
    ensures var lines := SplitOn(text, '\n');
      var r := Adj(Load(text).value, n);
      && (r.Failure? <==> !IsHead(lines, n))
      && (r.Success? ==> r.value == EdgesOf(lines, HeadSet(lines), n))
  {
    LoadNodes(text);
    if n in Load(text).value.edges {
      LoadEdges(text, n);
    }
  }

  /** A graph as `load` leaves it: every listed node has an edge list. */
  predicate Valid(g: Graph)
  {
    forall i :: 0 <= i < |g.names| ==> g.names[i] in g.edges
  }

  function EdgeText(es: seq<(string, int)>): string
  {
    if es == [] then "" else IntToString(es[0].1) + "km to: " + es[0].0 + " " + EdgeText(es[1..])
  }

  /** The line `to_string` writes for node `n`. */
  function NodeLine(g: Graph, n: string): string
    requires n in g.edges
  {
    "Node: " + n + " " + EdgeText(g.edges[n])
  }

  /** `DEG.to_string`: one line per node, in node order. */
  function ToString(g: Graph): string
    requires Valid(g)
  {
    Unlines(seq(|g.names|, i requires 0 <= i < |g.names| => NodeLine(g, g.names[i])))
  }

  lemma {:induction false} EdgeTextNoNewline(es: seq<(string, int)>)
    requires forall i :: 0 <= i < |es| ==> '\n' !in es[i].0
    ensures '\n' !in EdgeText(es)
  {
    if es != [] {
      NoNewlineInInt(es[0].1);
      EdgeTextNoNewline(es[1..]);
    }
  }

  /** `to_string` writes exactly one line per node, in node order, listing
      the node's adjacencies in `adj` order (as long as names hold no newline,
      which a loaded graph's words never do). */
  lemma ToStringLines(g: Graph)
    requires Valid(g)
    requires forall n :: n in g.edges ==> '\n' !in n && forall e :: e in g.edges[n] ==> '\n' !in e.0
    ensures var pieces := SplitOn(ToString(g), '\n');
      && |pieces| == |g.names| + 1 && pieces[|g.names|] == ""
      && forall i :: 0 <= i < |g.names| ==>
           pieces[i] == "Node: " + g.names[i] + " " + EdgeText(Adj(g, g.names[i]).value)
  {
    var ls := seq(|g.names|, i requires 0 <= i < |g.names| => NodeLine(g, g.names[i]));
    forall i | 0 <= i < |ls|
      ensures '\n' !in ls[i]
    {
      var n := g.names[i];
      EdgeTextNoNewline(g.edges[n]);
    }
    SplitUnlines(ls);
  }

  /** `b` is among the neighbours `adj(a)` lists. */
  predicate IsEdge(g: Graph, a: string, b: string)
  {
    a in g.edges && exists i :: 0 <= i < |g.edges[a]| && g.edges[a][i].0 == b
  }

  /** Consecutive nodes of `p` are joined by edges. */
  predicate IsPath(g: Graph, p: seq<string>)
  {
    forall i :: 0 <= i < |p| - 1 ==> IsEdge(g, p[i], p[i + 1])
  }

  /** Every name the graph mentions: its nodes and the targets of its edges. */
  function Names(g: Graph): set<string>
  {
    g.edges.Keys + set n, i | n in g.edges && 0 <= i < |g.edges[n]| :: g.edges[n][i].0
  }

  /** Every edge leads to a node, so `adj` succeeds on every neighbour. */
  predicate Closed(g: Graph)
  {
    forall n, i :: n in g.edges && 0 <= i < |g.edges[n]| ==> g.edges[n][i].0 in g.edges
  }

  /** In a closed graph every name it mentions is a node. */
  lemma ClosedNames(g: Graph)
    requires Closed(g)
    ensures Names(g) == g.edges.Keys
  {
  }

  /** A region that no edge leaves holds every path that starts inside it. */
  lemma {:induction false} PathInside(g: Graph, region: set<string>, p: seq<string>)
    requires |p| >= 1 && p[0] in region && IsPath(g, p)
    requires forall x, y :: x in region && IsEdge(g, x, y) ==> y in region
    ensures forall i :: 0 <= i < |p| ==> p[i] in region
    decreases |p|
  {
    if |p| > 1 {
      var q := p[..|p| - 1];
      assert IsPath(g, q) by {
        forall i | 0 <= i < |q| - 1
          ensures IsEdge(g, q[i], q[i + 1])
        {
          assert q[i] == p[i] && q[i + 1] == p[i + 1];
        }
      }
      PathInside(g, region, q);
      assert p[|p| - 2] == q[|q| - 1];
      assert IsEdge(g, p[|p| - 2], p[|p| - 1]);
    }
  }

  /** A loaded graph is closed: a search over it can only fail on its start. */
  lemma LoadClosed(text: string)
    requires Load(text).Success?
    ensures Valid(Load(text).value) && Closed(Load(text).value)
  {
    var g := Load(text).value;
    LoadNodes(text);
    forall n, i | n in g.edges && 0 <= i < |g.edges[n]|
      ensures g.edges[n][i].0 in g.edges
    {
      LoadEdges(text, n);
      assert g.edges[n][i] in g.edges[n];
    }
  }
}
