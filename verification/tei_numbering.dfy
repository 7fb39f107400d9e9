/** The numbering pass `__AutoNumberElements` of
    `sls_api/scripts/CTeiDocument.py`, over a document given as its
    elements in document order. It gives block elements chapter-aware ids,
    numbers the lines of each poem, and numbers tables and headings. */
module TeiNumbering {
  import opened Wrappers
  import opened PyStrings

  /** One element of the document, in document order.
      `inBody`: the element lies below `text/body`.
      `chapter`: for an element inside a `div type="chapter"`, the `id`
      attribute of the outermost such div ("" when it has none); `None`
      outside every chapter.
      `poems`: the document positions of the enclosing `div type="poem"`
      elements, outermost first. */
  datatype Node = Node(name: string, inBody: bool, chapter: Option<string>, poems: seq<nat>, attrs: map<string, string>)

  /** The attribute `{http://www.w3.org/XML/1998/namespace}id`. */
  const XmlId := "xml:id"

  function SetAttr(n: Node, key: string, value: string): Node {
    n.(attrs := n.attrs[key := value])
  }

  // ---------------------------------------------------------------------
  // Block elements

  /** The elements the block pass selects: `p`, `lg`, `list`, `sp` and
      `castList` below `text/body`. */
  predicate Selected(n: Node) {
    n.inBody && n.name in {"p", "lg", "list", "sp", "castList"}
  }

  /** `__GetNodePrefix`: "cl" for a castList, else the local name. */
  function NodePrefix(name: string): string {
    if name == "castList" then "cl" else name
  }

  /** The id given to the `n`-th block of a chapter: the chapter id without
      its first two characters and "_" before the number, when the chapter
      id is longer than two characters. */
  function BlockId(prefix: string, div: string, n: nat): string {
    if |div| > 2 then prefix + div[2..] + "_" + NatToString(n) else prefix + NatToString(n)
  }

  /** Within one chapter, different numbers give different ids. */
  lemma BlockIdInjective(prefix: string, div: string, n: nat, m: nat)
    ensures BlockId(prefix, div, n) == BlockId(prefix, div, m) <==> n == m
  {
    var x := if |div| > 2 then prefix + div[2..] + "_" else prefix;
    assert BlockId(prefix, div, n) == x + NatToString(n);
    assert BlockId(prefix, div, m) == x + NatToString(m);
    if BlockId(prefix, div, n) == BlockId(prefix, div, m) {
      assert (x + NatToString(n))[|x|..] == NatToString(n);
      assert (x + NatToString(m))[|x|..] == NatToString(m);
      NatToStringValue(n);
      NatToStringValue(m);
    }
  }

  /** A selected element carrying a chapter. */
  predicate SetsChapter(n: Node) {
    Selected(n) && n.chapter.Some?
  }

  /** The chapter id held after the pass has gone through `ns`: a
      selected element outside every chapter leaves it as it was. */
  function DivAfter(ns: seq<Node>): string
    decreases |ns|
  {
    if |ns| == 0 then ""
    else if SetsChapter(ns[|ns| - 1]) then ns[|ns| - 1].chapter.value
    else DivAfter(ns[..|ns| - 1])
  }

  /** The counter held after the pass has gone through `ns`: the number
      the next block gets unless its chapter id differs. */
  function NextCounter(ns: seq<Node>): (c: nat)
    ensures c >= 1
    decreases |ns|
  {
    if |ns| == 0 then 1
    else
      var init := ns[..|ns| - 1];
      if !Selected(ns[|ns| - 1]) then NextCounter(init)
      else (if DivAfter(ns) != DivAfter(init) then 1 else NextCounter(init)) + 1
  }

  /** The number of the selected element at `i`. */
  function Number(ns: seq<Node>, i: nat): (n: nat)
    requires i < |ns| && Selected(ns[i])
    ensures n >= 1
  {
    NextCounter(ns[..i + 1]) - 1
  }

  /** The element at `i` after the block pass. */
  function Numbered(ns: seq<Node>, i: nat): Node
    requires i < |ns|
  {
    if Selected(ns[i])
    then SetAttr(ns[i], XmlId, BlockId(NodePrefix(ns[i].name), DivAfter(ns[..i + 1]), Number(ns, i)))
    else ns[i]
  }

  function BlockNumbered(ns: seq<Node>): (r: seq<Node>)
    ensures |r| == |ns|
    ensures forall i :: 0 <= i < |ns| ==> r[i].name == ns[i].name && r[i].poems == ns[i].poems
  {
    seq(|ns|, i requires 0 <= i < |ns| => Numbered(ns, i))
  }

  /** The block pass as the source runs it: one counter, the current and
      the previous chapter id. */
  method NumberBlocks(nodes: seq<Node>) returns (r: seq<Node>)
    ensures r == BlockNumbered(nodes)
  {
    var counter := 1;
    var div := "";
    var previous := "";
    r := [];
    var i := 0;
    while i < |nodes|
      invariant 0 <= i <= |nodes| && |r| == i
      invariant forall j :: 0 <= j < i ==> r[j] == Numbered(nodes, j)
      invariant div == previous == DivAfter(nodes[..i])
      invariant counter == NextCounter(nodes[..i])
    {
      var n := nodes[i];
      ghost var before := r;
      BlockStep(nodes, i);
      if Selected(n) {
        if n.chapter.Some? {
          div := n.chapter.value;
        }
        if div != previous {
          counter := 1;
        }
        r := r + [SetAttr(n, XmlId, BlockId(NodePrefix(n.name), div, counter))];
        counter := counter + 1;
        previous := div;
      } else {
        r := r + [n];
      }
      assert r == before + [Numbered(nodes, i)];
      i := i + 1;
    }
    assert nodes[..|nodes|] == nodes;
  }

  /** One element of the block pass: how chapter id, counter and the
      element itself follow from the state before it. */
  lemma BlockStep(nodes: seq<Node>, i: nat)
    requires i < |nodes|
    ensures var n := nodes[i];
            var div := DivAfter(nodes[..i]);
            var div' := if Selected(n) && n.chapter.Some? then n.chapter.value else div;
            var c := if div' != div then 1 else NextCounter(nodes[..i]);
            && DivAfter(nodes[..i + 1]) == div'
            && (Selected(n) ==>
                  NextCounter(nodes[..i + 1]) == c + 1
                  && Numbered(nodes, i) == SetAttr(n, XmlId, BlockId(NodePrefix(n.name), div', c)))
            && (!Selected(n) ==> NextCounter(nodes[..i + 1]) == NextCounter(nodes[..i]) && Numbered(nodes, i) == n)
  {
    assert nodes[..i + 1][..i] == nodes[..i];
    assert nodes[..i + 1][i] == nodes[i];
  }

  /** The chapter id in force is that of the last selected element that
      carried one, and "" before any did. */
  lemma {:induction false} DivAfterLastChapter(ns: seq<Node>, j: nat)
    requires j < |ns| && SetsChapter(ns[j])
    requires forall k :: j < k < |ns| ==> !SetsChapter(ns[k])
    ensures DivAfter(ns) == ns[j].chapter.value
    decreases |ns|
  {
    if j < |ns| - 1 {
      DivAfterLastChapter(ns[..|ns| - 1], j);
    }
  }

  lemma {:induction false} DivAfterNoChapter(ns: seq<Node>)
    requires forall k :: 0 <= k < |ns| ==> !SetsChapter(ns[k])
    ensures DivAfter(ns) == ""
    decreases |ns|
  {
    if |ns| > 0 {
      DivAfterNoChapter(ns[..|ns| - 1]);
    }
  }

  /** The counter exceeds 1 exactly when a block has been numbered. */
  lemma {:induction false} NextCounterStarted(ns: seq<Node>)
    ensures NextCounter(ns) >= 2 <==> exists k :: 0 <= k < |ns| && Selected(ns[k])
    decreases |ns|
  {
    if |ns| > 0 {
      var init := ns[..|ns| - 1];
      NextCounterStarted(init);
      if exists k :: 0 <= k < |init| && Selected(init[k]) {
        var k :| 0 <= k < |init| && Selected(init[k]);
        assert ns[k] == init[k];
      }
      if exists k :: 0 <= k < |ns| && Selected(ns[k]) {
        var k :| 0 <= k < |ns| && Selected(ns[k]);
        if k < |ns| - 1 {
          assert init[k] == ns[k];
        }
      }
    }
  }

  /** A block is number 1 exactly when its chapter id differs from the
      one in force before it, or no block came before it. */
  lemma NumberRestarts(ns: seq<Node>, i: nat)
    requires i < |ns| && Selected(ns[i])
    ensures Number(ns, i) == 1 <==>
      DivAfter(ns[..i + 1]) != DivAfter(ns[..i]) || forall k :: 0 <= k < i ==> !Selected(ns[k])
  {
    assert ns[..i + 1][..i] == ns[..i];
    NextCounterStarted(ns[..i]);
    if exists k :: 0 <= k < i && Selected(ns[k]) {
      var k :| 0 <= k < i && Selected(ns[k]);
      assert ns[..i][k] == ns[k];
    }
  }

  /** Elements the pass does not select change neither counter nor
      chapter id. */
  lemma {:induction false} SkipUnselected(ns: seq<Node>, j: nat, i: nat)
    requires j <= i <= |ns|
    requires forall k :: j <= k < i ==> !Selected(ns[k])
    ensures DivAfter(ns[..i]) == DivAfter(ns[..j]) && NextCounter(ns[..i]) == NextCounter(ns[..j])
    decreases i - j
  {
    if i > j {
      assert ns[..i][..i - 1] == ns[..i - 1];
      SkipUnselected(ns, j, i - 1);
    }
  }

  /** Inside one chapter each block's number is one more than the
      previous block's. */
  lemma NumberContinues(ns: seq<Node>, j: nat, i: nat)
    requires j < i < |ns| && Selected(ns[j]) && Selected(ns[i])
    requires forall k :: j < k < i ==> !Selected(ns[k])
    requires DivAfter(ns[..i + 1]) == DivAfter(ns[..i])
    ensures Number(ns, i) == Number(ns, j) + 1
  {
    assert ns[..i + 1][..i] == ns[..i];
    SkipUnselected(ns, j + 1, i);
  }

  // ---------------------------------------------------------------------
  // Poem lines

  /** A line of the poem div at position `d`. */
  predicate InPoem(n: Node, d: nat) {
    n.name == "l" && d in n.poems
  }

  /** How many lines of poem `d` come before position `i`. */
  function LinesBefore(ns: seq<Node>, d: nat, i: nat): nat
    requires i <= |ns|
  {
    if i == 0 then 0 else LinesBefore(ns, d, i - 1) + (if InPoem(ns[i - 1], d) then 1 else 0)
  }

  /** One poem div's pass: its lines, counted in `orig`, get n = 1, 2, …
      in `acc`. */
  function NumberPoem(acc: seq<Node>, orig: seq<Node>, d: nat): (r: seq<Node>)
    requires |acc| == |orig|
    ensures |r| == |acc|
  {
    seq(|acc|, i requires 0 <= i < |acc| =>
      if InPoem(orig[i], d) then SetAttr(acc[i], "n", NatToString(LinesBefore(orig, d, i) + 1)) else acc[i])
  }

  /** The poem divs' passes in document order. */
  function NumberLinesFrom(acc: seq<Node>, orig: seq<Node>, poemDivs: seq<nat>): (r: seq<Node>)
    requires |acc| == |orig|
    ensures |r| == |acc|
    decreases |poemDivs|
  {
    if |poemDivs| == 0 then acc
    else NumberLinesFrom(NumberPoem(acc, orig, poemDivs[0]), orig, poemDivs[1..])
  }

  /** Line numbering over the document, given the positions of its poem
      divs in document order. */
  function NumberLines(ns: seq<Node>, poemDivs: seq<nat>): seq<Node> {
    NumberLinesFrom(ns, ns, poemDivs)
  }

  /** The last poem div of `poemDivs` that encloses the line `n`. */
  function LastPoem(poemDivs: seq<nat>, n: Node): Option<nat>
    decreases |poemDivs|
  {
    if |poemDivs| == 0 then None
    else
      var d := poemDivs[|poemDivs| - 1];
      if InPoem(n, d) then Some(d) else LastPoem(poemDivs[..|poemDivs| - 1], n)
  }

  /** Each pass overwrites `n`, so a line ends up numbered by the last
      poem div that encloses it; every other element is left alone. */
  lemma {:induction false} LastPassWins(acc: seq<Node>, orig: seq<Node>, poemDivs: seq<nat>, i: nat)
    requires |acc| == |orig| && i < |acc|
    ensures LastPoem(poemDivs, orig[i]).None? ==> NumberLinesFrom(acc, orig, poemDivs)[i] == acc[i]
    ensures LastPoem(poemDivs, orig[i]).Some? ==>
      NumberLinesFrom(acc, orig, poemDivs)[i]
        == SetAttr(acc[i], "n", NatToString(LinesBefore(orig, LastPoem(poemDivs, orig[i]).value, i) + 1))
    decreases |poemDivs|
  {
    if |poemDivs| > 0 {
      var next := NumberPoem(acc, orig, poemDivs[0]);
      LastPassWins(next, orig, poemDivs[1..], i);
      LastPoemCons(poemDivs, orig[i]);
    }
  }

  /** `LastPoem` read from the front. */
  lemma {:induction false} LastPoemCons(poemDivs: seq<nat>, n: Node)
    requires |poemDivs| > 0
    ensures LastPoem(poemDivs, n) ==
      if LastPoem(poemDivs[1..], n).Some? then LastPoem(poemDivs[1..], n)
      else if InPoem(n, poemDivs[0]) then Some(poemDivs[0]) else None
    decreases |poemDivs|
  {
    if |poemDivs| > 1 {
      var init := poemDivs[..|poemDivs| - 1];
      assert init[1..] == poemDivs[1..][..|poemDivs| - 2];
      LastPoemCons(init, n);
    }
  }

  predicate Increasing(xs: seq<nat>) {
    forall a, b :: 0 <= a < b < |xs| ==> xs[a] < xs[b]
  }

  /** With poem divs listed in document order, an inner div follows the
      divs around it, so a line's number counts the lines of its innermost
      poem. */
  lemma InnermostPoemNumbers(ns: seq<Node>, poemDivs: seq<nat>, i: nat)
    requires i < |ns| && ns[i].name == "l" && |ns[i].poems| > 0
    requires Increasing(poemDivs) && Increasing(ns[i].poems)
    requires forall k :: 0 <= k < |ns[i].poems| ==> ns[i].poems[k] in poemDivs
    ensures var inner := ns[i].poems[|ns[i].poems| - 1];
      NumberLines(ns, poemDivs)[i] == SetAttr(ns[i], "n", NatToString(LinesBefore(ns, inner, i) + 1))
  {
    var inner := ns[i].poems[|ns[i].poems| - 1];
    LastPassWins(ns, ns, poemDivs, i);
    var p :| 0 <= p < |poemDivs| && poemDivs[p] == inner;
    LastPoemIs(poemDivs, ns[i], p);
  }

  lemma {:induction false} LastPoemIs(poemDivs: seq<nat>, n: Node, p: nat)
    requires p < |poemDivs| && n.name == "l" && |n.poems| > 0
    requires Increasing(poemDivs) && Increasing(n.poems)
    requires poemDivs[p] == n.poems[|n.poems| - 1]
    ensures LastPoem(poemDivs, n) == Some(poemDivs[p])
    decreases |poemDivs|
  {
    var last := |poemDivs| - 1;
    if p < last {
      var d := poemDivs[last];
      assert d > poemDivs[p];
      assert !InPoem(n, d);
      LastPoemIs(poemDivs[..last], n, p);
    } else {
      assert InPoem(n, poemDivs[p]);
    }
  }

  // ---------------------------------------------------------------------
  // Tables and headings

  /** How many elements named `name` come before position `i`. */
  function CountNamed(ns: seq<Node>, name: string, i: nat): nat
    requires i <= |ns|
  {
    if i == 0 then 0 else CountNamed(ns, name, i - 1) + (if ns[i - 1].name == name then 1 else 0)
  }

  /** Drop the plain `id` attribute and set the xml:id. */
  function Renumber(n: Node, id: string): Node {
    n.(attrs := (n.attrs - {"id"})[XmlId := id])
  }

  /** `__AutoNumber(name, prefix)`: the k-th element named `name` in the
      document gets the xml:id prefix + k. */
  function AutoNumber(ns: seq<Node>, name: string, prefix: string): (r: seq<Node>)
    ensures |r| == |ns|
    ensures forall i :: 0 <= i < |ns| ==> r[i].name == ns[i].name && r[i].poems == ns[i].poems
  {
    seq(|ns|, i requires 0 <= i < |ns| => AutoNumbered(ns, name, prefix, i))
  }

  /** Element `i` after `AutoNumber`. */
  function AutoNumbered(ns: seq<Node>, name: string, prefix: string, i: nat): Node
    requires i < |ns|
  {
    if ns[i].name == name then Renumber(ns[i], prefix + NatToString(CountNamed(ns, name, i) + 1)) else ns[i]
  }

  /** The source's loop with its running counter. */
  method AutoNumberLoop(ns: seq<Node>, name: string, prefix: string) returns (r: seq<Node>)
    ensures r == AutoNumber(ns, name, prefix)
  {
    ghost var full := AutoNumber(ns, name, prefix);
    var counter := 1;
    r := [];
    var i := 0;
    while i < |ns|
      invariant 0 <= i <= |ns| && |r| == i
      invariant counter == CountNamed(ns, name, i) + 1
      invariant forall j :: 0 <= j < i ==> r[j] == full[j]
    {
      ghost var before := r;
      AutoNumberAt(ns, name, prefix, i);
      if ns[i].name == name {
        r := r + [Renumber(ns[i], prefix + NatToString(counter))];
        counter := counter + 1;
      } else {
        r := r + [ns[i]];
      }
      assert r == before + [full[i]];
      i := i + 1;
    }
    assert |r| == |full|;
  }

  lemma AutoNumberAt(ns: seq<Node>, name: string, prefix: string, i: nat)
    requires i < |ns|
    ensures |AutoNumber(ns, name, prefix)| == |ns|
    ensures AutoNumber(ns, name, prefix)[i] == AutoNumbered(ns, name, prefix, i)
  {
  }

  lemma {:induction false} CountNamedMonotone(ns: seq<Node>, name: string, j: nat, i: nat)
    requires j < i <= |ns| && ns[j].name == name
    ensures CountNamed(ns, name, j) < CountNamed(ns, name, i)
    decreases i - j
  {
    if i > j + 1 {
      CountNamedMonotone(ns, name, j, i - 1);
    }
  }

  /** Numbered elements lose their plain id, and no two of them share an
      xml:id. */
  lemma AutoNumberDistinct(ns: seq<Node>, name: string, prefix: string, i: nat, j: nat)
    requires i < j < |ns| && ns[i].name == name && ns[j].name == name
    ensures "id" !in AutoNumber(ns, name, prefix)[i].attrs
    ensures AutoNumber(ns, name, prefix)[i].attrs[XmlId] != AutoNumber(ns, name, prefix)[j].attrs[XmlId]
  {
    var r := AutoNumber(ns, name, prefix);
    CountNamedMonotone(ns, name, i, j);
    var a := CountNamed(ns, name, i) + 1;
    var b := CountNamed(ns, name, j) + 1;
    if r[i].attrs[XmlId] == r[j].attrs[XmlId] {
      assert (prefix + NatToString(a))[|prefix|..] == NatToString(a);
      assert (prefix + NatToString(b))[|prefix|..] == NatToString(b);
      NatToStringValue(a);
      NatToStringValue(b);
    }
  }

  /** The first such element is number 1 and the next one after each is
      one more. */
  lemma AutoNumberConsecutive(ns: seq<Node>, name: string, j: nat, i: nat)
    requires j < i < |ns| && ns[j].name == name && ns[i].name == name
    requires forall k :: j < k < i ==> ns[k].name != name
    ensures CountNamed(ns, name, i) == CountNamed(ns, name, j) + 1
  {
    CountNamedFlat(ns, name, j + 1, i);
  }

  lemma {:induction false} CountNamedFlat(ns: seq<Node>, name: string, j: nat, i: nat)
    requires j <= i <= |ns|
    requires forall k :: j <= k < i ==> ns[k].name != name
    ensures CountNamed(ns, name, i) == CountNamed(ns, name, j)
    decreases i - j
  {
    if i > j {
      CountNamedFlat(ns, name, j, i - 1);
    }
  }

  lemma AutoNumberFirst(ns: seq<Node>, name: string, i: nat)
    requires i < |ns| && forall k :: 0 <= k < i ==> ns[k].name != name
    ensures CountNamed(ns, name, i) == 0
  {
    CountNamedFlat(ns, name, 0, i);
  }

  // ---------------------------------------------------------------------
  // The whole pass

  /** `__AutoNumberElements(bNumberLines)`: blocks, then poem lines when
      asked, then tables ("table" + k), then headings ("h" + k). */
  function AutoNumberElements(ns: seq<Node>, poemDivs: seq<nat>, numberLines: bool): (r: seq<Node>)
    ensures |r| == |ns|
    ensures !numberLines ==> forall i :: 0 <= i < |ns| ==> r[i].name == ns[i].name && r[i].poems == ns[i].poems
  {
    var blocks := BlockNumbered(ns);
    var lines := if numberLines then NumberLines(blocks, poemDivs) else blocks;
    AutoNumber(AutoNumber(lines, "table", "table"), "head", "h")
  }

  /** A block's id survives the later passes, which touch only lines,
      tables and headings. */
  lemma BlockIdKept(ns: seq<Node>, poemDivs: seq<nat>, numberLines: bool, i: nat)
    requires i < |ns| && Selected(ns[i])
    ensures |AutoNumberElements(ns, poemDivs, numberLines)| == |ns|
    ensures AutoNumberElements(ns, poemDivs, numberLines)[i] == Numbered(ns, i)
  {
    var blocks := BlockNumbered(ns);
    if numberLines {
      LastPassWins(blocks, blocks, poemDivs, i);
      NotInPoem(poemDivs, blocks[i]);
    }
  }

  lemma {:induction false} NotInPoem(poemDivs: seq<nat>, n: Node)
    requires n.name != "l"
    ensures LastPoem(poemDivs, n).None?
    decreases |poemDivs|
  {
    if |poemDivs| > 0 {
      NotInPoem(poemDivs[..|poemDivs| - 1], n);
    }
  }
}
