/**
 * The instruction list both optimizer drafts build: a linked list of
 * `(ins, count)` nodes, modelled as an immutable sequence, together with a
 * reference run-length encoding against which the drafts are compared.
 */
module RunLength {

  /** One list node: command `ins` repeated `count` times. */
  datatype Node = Node(ins: char, count: nat)

  /** `n` copies of `c`. */
  function Repeat(c: char, n: nat): seq<char>
  {
    seq(n, _ => c)
  }

  /** The command string a node list stands for. */
  function Expand(nodes: seq<Node>): seq<char>
    decreases |nodes|
  {
    if nodes == [] then []
    else Repeat(nodes[0].ins, nodes[0].count) + Expand(nodes[1..])
  }

  /** Sum of the repeat counts. */
  function TotalCount(nodes: seq<Node>): nat
    decreases |nodes|
  {
    if nodes == [] then 0 else nodes[0].count + TotalCount(nodes[1..])
  }

  /** Every node stands for at least one command and neighbours differ: runs are maximal. */
  predicate MaximalRuns(nodes: seq<Node>)
  {
    && (forall i :: 0 <= i < |nodes| ==> nodes[i].count >= 1)
    && (forall i :: 0 < i < |nodes| ==> nodes[i].ins != nodes[i - 1].ins)
  }

  /** Length of the run of equal characters that starts `s`. */
  function LeadRun(s: seq<char>): (n: nat)
    requires s != []
    ensures 1 <= n <= |s|
    ensures forall i :: 0 <= i < n ==> s[i] == s[0]
    ensures n < |s| ==> s[n] != s[0]
    decreases |s|
  {
    if |s| == 1 || s[1] != s[0] then 1 else 1 + LeadRun(s[1..])
  }

  /** Reference run-length encoding: one node per maximal run, in order. */
  function Runs(s: seq<char>): seq<Node>
    decreases |s|
  {
    if s == [] then [] else [Node(s[0], LeadRun(s))] + Runs(s[LeadRun(s)..])
  }

  /** Prepending a node that differs from the next one keeps runs maximal. */
  lemma MaximalCons(n: Node, rest: seq<Node>)
    requires MaximalRuns(rest) && n.count >= 1
    requires rest == [] || rest[0].ins != n.ins
    ensures MaximalRuns([n] + rest)
  {
    var r := [n] + rest;
    forall i | 0 < i < |r| ensures r[i].ins != r[i - 1].ins {
      assert r[i] == rest[i - 1];
      if i > 1 { assert r[i - 1] == rest[i - 2]; }
    }
  }

  /** Expanding a list with a head node. */
  lemma ExpandCons(n: Node, rest: seq<Node>)
    ensures Expand([n] + rest) == Repeat(n.ins, n.count) + Expand(rest)
  {
    assert ([n] + rest)[1..] == rest;
  }

  /** A leading run followed by an encoding of the rest encodes the whole string. */
  lemma EncodeLeadRun(s: seq<char>, n: nat, rest: seq<Node>)
    requires 1 <= n <= |s|
    requires forall i :: 0 <= i < n ==> s[i] == s[0]
    requires n < |s| ==> s[n] != s[0]
    requires MaximalRuns(rest) && Expand(rest) == s[n..]
    requires n < |s| ==> rest != [] && rest[0].ins == s[n]
    ensures MaximalRuns([Node(s[0], n)] + rest)
    ensures Expand([Node(s[0], n)] + rest) == s
  {
    if rest != [] {
      assert Expand(rest) == Repeat(rest[0].ins, rest[0].count) + Expand(rest[1..]);
      assert n < |s|;
    }
    MaximalCons(Node(s[0], n), rest);
    ExpandCons(Node(s[0], n), rest);
    assert Repeat(s[0], n) == s[..n];
    assert s == s[..n] + s[n..];
  }

  /** The reference encoding has maximal runs and expands back to its input. */
  lemma {:induction false} RunsEncode(s: seq<char>)
    ensures MaximalRuns(Runs(s))
    ensures Expand(Runs(s)) == s
    ensures s != [] ==> Runs(s) != [] && Runs(s)[0].ins == s[0]
    decreases |s|
  {
    if s != [] {
      var n := LeadRun(s);
      RunsEncode(s[n..]);
      EncodeLeadRun(s, n, Runs(s[n..]));
    }
  }

  /**
   * `add_node`: attach one node after the current last node. The nodes
   * already in the list are left untouched.
   */
  function AddNode(list: seq<Node>, ins: char, count: nat): (r: seq<Node>)
    ensures |r| == |list| + 1
    ensures r[..|list|] == list && r[|list|] == Node(ins, count)
  {
    list + [Node(ins, count)]
  }

  /** The appended node adds its run to the end of the command string. */
  lemma AddNodeExpand(list: seq<Node>, ins: char, count: nat)
    ensures Expand(AddNode(list, ins, count)) == Expand(list) + Repeat(ins, count)
  {
    ExpandAppend(list, [Node(ins, count)]);
    assert Expand([Node(ins, count)]) == Repeat(ins, count) + [];
  }

  /** Expansion distributes over concatenation of node lists. */
  lemma {:induction false} ExpandAppend(a: seq<Node>, b: seq<Node>)
    ensures Expand(a + b) == Expand(a) + Expand(b)
    decreases |a|
  {
    if a == [] {
      assert a + b == b;
    } else {
      assert (a + b)[0] == a[0];
      assert (a + b)[1..] == a[1..] + b;
      ExpandAppend(a[1..], b);
    }
  }

  /** The expanded string is as long as the counts add up to. */
  lemma {:induction false} ExpandLength(nodes: seq<Node>)
    ensures |Expand(nodes)| == TotalCount(nodes)
    decreases |nodes|
  {
    if nodes != [] {
      ExpandLength(nodes[1..]);
    }
  }

  /** In an encoding with maximal runs, the first node is exactly the leading run. */
  lemma LeadRunOfEncoding(nodes: seq<Node>, s: seq<char>)
    requires MaximalRuns(nodes) && nodes != [] && Expand(nodes) == s
    ensures s != [] && s[0] == nodes[0].ins
    ensures LeadRun(s) == nodes[0].count
    ensures s[nodes[0].count..] == Expand(nodes[1..])
  {
    var n, rest := nodes[0], nodes[1..];
    assert s == Repeat(n.ins, n.count) + Expand(rest);
    assert s[0] == n.ins;
    if rest != [] {
      var r0 := rest[0];
      assert Expand(rest) == Repeat(r0.ins, r0.count) + Expand(rest[1..]);
      assert s[n.count] == r0.ins;
    }
    assert forall j :: 0 <= j < n.count ==> s[j] == n.ins;
    assert s[n.count..] == Expand(rest);
  }

  /** The defining equation of the reference encoding for a non-empty string. */
  lemma RunsHead(s: seq<char>)
    requires s != []
    ensures Runs(s) == [Node(s[0], LeadRun(s))] + Runs(s[LeadRun(s)..])
  {
  }

  lemma MaximalTail(nodes: seq<Node>)
    requires MaximalRuns(nodes) && nodes != []
    ensures MaximalRuns(nodes[1..])
  {
  }

  /**
   * Maximal runs are unique: any node list with maximal runs that expands
   * to `s` is exactly the reference encoding of `s`.
   */
  lemma {:induction false} RunsUnique(nodes: seq<Node>, s: seq<char>)
    requires MaximalRuns(nodes) && Expand(nodes) == s
    ensures nodes == Runs(s)
    decreases |nodes|
  {
    if nodes != [] {
      var n := nodes[0];
      LeadRunOfEncoding(nodes, s);
      MaximalTail(nodes);
      RunsUnique(nodes[1..], s[n.count..]);
      RunsHead(s);
      calc {
        Runs(s);
        [Node(s[0], LeadRun(s))] + Runs(s[LeadRun(s)..]);
        [n] + nodes[1..];
        nodes;
      }
    }
  }

  /** A node whose command differs from the last one keeps runs maximal. */
  lemma MaximalSnoc(runs: seq<Node>, c: char, n: nat)
    requires MaximalRuns(runs) && n >= 1
    requires runs == [] || runs[|runs| - 1].ins != c
    ensures MaximalRuns(runs + [Node(c, n)])
  {
    var r := runs + [Node(c, n)];
    forall i | 0 <= i < |r| ensures r[i].count >= 1 {
      if i < |runs| { assert r[i] == runs[i]; }
    }
    forall i | 0 < i < |r| ensures r[i].ins != r[i - 1].ins {
      if i < |runs| { assert r[i] == runs[i] && r[i - 1] == runs[i - 1]; }
    }
  }

  /** A pending run of equal characters is a `Repeat` appended to what precedes it. */
  lemma PendingRun(input: seq<char>, start: nat, i: nat)
    requires start < i <= |input|
    requires forall j :: start <= j < i ==> input[j] == input[i - 1]
    ensures input[..i] == input[..start] + Repeat(input[i - 1], i - start)
  {
  }

  /**
   * A run-length scan part way through: the nodes after the first `lead`
   * are maximal runs that expand to `input[..start]`, the last of them
   * being the run just before `start`.
   */
  predicate EncodesAfter(nodes: seq<Node>, lead: nat, input: seq<char>, start: nat)
    requires start <= |input|
  {
    && lead <= |nodes|
    && MaximalRuns(nodes[lead..]) && Expand(nodes[lead..]) == input[..start]
    && (start > 0 ==> |nodes| > lead && nodes[|nodes| - 1].ins == input[start - 1])
  }

  /**
   * The `count` characters before `i` are one pending run: all equal, and
   * not preceded by the same character.
   */
  predicate PendingRunAt(input: seq<char>, i: nat, count: nat)
    requires i <= |input|
  {
    && 1 <= count <= i
    && (forall j :: i - count <= j < i ==> input[j] == input[i - 1])
    && (i - count == 0 || input[i - count - 1] != input[i - 1])
  }

  /** Closing the pending run appends its node and keeps the encoding. */
  lemma CloseRun(input: seq<char>, i: nat, count: nat, nodes: seq<Node>, lead: nat)
    requires i <= |input| && PendingRunAt(input, i, count)
    requires EncodesAfter(nodes, lead, input, i - count)
    ensures EncodesAfter(AddNode(nodes, input[i - 1], count), lead, input, i)
  {
    var start, c := i - count, input[i - 1];
    var body := nodes[lead..];
    var nodes' := AddNode(nodes, c, count);
    assert nodes'[lead..] == body + [Node(c, count)];
    if start == 0 {
      assert body == [] by {
        ExpandLength(body);
      }
    } else {
      assert body[|body| - 1] == nodes[|nodes| - 1];
    }
    MaximalSnoc(body, c, count);
    ExpandAppend(body, [Node(c, count)]);
    assert Expand([Node(c, count)]) == Repeat(c, count) + [];
    PendingRun(input, start, i);
  }

  /** A finished scan holds the reference encoding after its first `lead` nodes. */
  lemma EncodesAfterRuns(nodes: seq<Node>, lead: nat, input: seq<char>, start: nat)
    requires start <= |input| && EncodesAfter(nodes, lead, input, start)
    ensures nodes[lead..] == Runs(input[..start])
  {
    RunsUnique(nodes[lead..], input[..start]);
  }

  /** Every node that repeats its character at least once shows it in the expansion. */
  lemma {:induction false} NodeInExpansion(nodes: seq<Node>, k: nat)
    requires k < |nodes| && nodes[k].count >= 1
    ensures nodes[k].ins in Expand(nodes)
    decreases k
  {
    var head := Repeat(nodes[0].ins, nodes[0].count);
    if k == 0 {
      assert Expand(nodes)[0] == head[0];
    } else {
      NodeInExpansion(nodes[1..], k - 1);
      assert nodes[1..][k - 1] == nodes[k];
      var i :| 0 <= i < |Expand(nodes[1..])| && Expand(nodes[1..])[i] == nodes[k].ins;
      assert Expand(nodes)[|head| + i] == nodes[k].ins;
    }
  }
}
