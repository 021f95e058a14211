/** The generic converter from a parsed, element-only XML tree to a nested
    key/value structure (`xml2json` in src/App.js).

    `Convert` is the reference definition, written per key. `XmlToJson` is the
    source's loop over the children, which builds the result dictionary in
    place, creating a list on the first occurrence of a repeated tag and
    appending to it afterwards; its "first occurrence" test looks at the keys
    the loop itself stored. JavaScript's lookup, which also sees the members
    every object inherits, is `PrototypeKeys.ConvertAsWritten`. */
module Converter {

  /** An XML element: its tag name, its element children in document order and
      its serialised inner content (what `innerHTML` returns). */
  datatype Node = Node(name: string, children: seq<Node>, text: string)

  /** A converted value: the raw text of a leaf, a list of converted siblings
      sharing a tag name, or a dictionary keyed by child tag name. */
  datatype JVal = JStr(s: string) | JList(items: seq<JVal>) | JObj(fields: map<string, JVal>)

  /** The nodes of `cs` whose tag is `name`, in document order. */
  function Named(cs: seq<Node>, name: string): (r: seq<Node>)
    ensures |r| <= |cs|
    ensures forall x :: x in r <==> x in cs && x.name == name
  {
    if cs == [] then []
    else Named(cs[..|cs| - 1], name) + (if cs[|cs| - 1].name == name then [cs[|cs| - 1]] else [])
  }

  /** The distinct tag names occurring in `cs`. */
  function Names(cs: seq<Node>): set<string>
  {
    set c | c in cs :: c.name
  }

  /** A tag is a list key when it occurs more than once among all the siblings. */
  predicate Repeats(cs: seq<Node>, name: string)
  {
    |Named(cs, name)| > 1
  }

  /** The conversion of a node: its text if it has no element children,
      otherwise the dictionary built from all of its children. */
  function Convert(n: Node): JVal
    decreases n, 2
  {
    if |n.children| == 0 then JStr(n.text) else JObj(Fields(n, |n.children|))
  }

  /** The dictionary holding what the first `i` children of `n` contribute:
      one key per tag among them. */
  function Fields(n: Node, i: nat): map<string, JVal>
    requires i <= |n.children|
    decreases n, 1
  {
    map k | k in Names(n.children[..i]) :: Entry(n, i, k)
  }

  /** The value under tag `k` after the first `i` children of `n`: for a tag
      that repeats among all the children, the list of the children with that
      tag converted so far; for a unique tag, that child converted. */
  function Entry(n: Node, i: nat, k: string): JVal
    requires i <= |n.children| && k in Names(n.children[..i])
    decreases n, 0
  {
    var done := n.children[..i];
    var g := Named(done, k);
    assert g != [] by { NamedNonEmpty(done, k); }
    if Repeats(n.children, k) then
      JList(seq(|g|, j requires 0 <= j < |g| => assert g[j] in done; Convert(g[j])))
    else
      assert g[0] in done; Convert(g[0])
  }

  lemma NamedNonEmpty(cs: seq<Node>, k: string)
    ensures k in Names(cs) <==> Named(cs, k) != []
  {
    if k in Names(cs) {
      var c :| c in cs && c.name == k;
      assert c in Named(cs, k);
    }
  }

  /** Taking a prefix of the siblings never adds same-named nodes. */
  lemma {:induction false} NamedPrefix(cs: seq<Node>, i: nat, k: string)
    requires i <= |cs|
    ensures |Named(cs[..i], k)| <= |Named(cs, k)|
    decreases |cs| - i
  {
    if i < |cs| {
      var front := cs[..|cs| - 1];
      assert front[..i] == cs[..i];
      NamedPrefix(front, i, k);
    } else {
      assert cs[..i] == cs;
    }
  }

  /** Extending the prefix by one sibling extends only that sibling's group. */
  lemma NamedExtend(cs: seq<Node>, i: nat, k: string)
    requires i < |cs|
    ensures Named(cs[..i + 1], k) == Named(cs[..i], k) + (if cs[i].name == k then [cs[i]] else [])
  {
    assert cs[..i + 1][..i] == cs[..i];
  }

  /** The entry of a tag other than the next child's is not touched. */
  lemma EntryOther(n: Node, i: nat, k: string)
    requires i < |n.children| && k in Names(n.children[..i]) && k != n.children[i].name
    ensures k in Names(n.children[..i + 1])
    ensures Entry(n, i + 1, k) == Entry(n, i, k)
  {
    NamedExtend(n.children, i, k);
    NamedNonEmpty(n.children[..i + 1], k);
  }

  /** A unique tag maps to its one child converted. */
  lemma EntryUnique(n: Node, i: nat)
    requires i < |n.children| && !Repeats(n.children, n.children[i].name)
    ensures n.children[i].name in Names(n.children[..i + 1])
    ensures Entry(n, i + 1, n.children[i].name) == Convert(n.children[i])
  {
    var cs := n.children;
    NamedExtend(cs, i, cs[i].name);
    NamedNonEmpty(cs[..i + 1], cs[i].name);
    NamedPrefix(cs, i + 1, cs[i].name);
  }

  /** The first occurrence of a repeated tag already creates its list. */
  lemma EntryFirst(n: Node, i: nat)
    requires i < |n.children| && Repeats(n.children, n.children[i].name)
    requires n.children[i].name !in Names(n.children[..i])
    ensures n.children[i].name in Names(n.children[..i + 1])
    ensures Entry(n, i + 1, n.children[i].name) == JList([Convert(n.children[i])])
  {
    var cs := n.children;
    NamedExtend(cs, i, cs[i].name);
    NamedNonEmpty(cs[..i], cs[i].name);
    NamedNonEmpty(cs[..i + 1], cs[i].name);
  }

  /** A later occurrence of a repeated tag is appended to its list. */
  lemma EntryAppend(n: Node, i: nat)
    requires i < |n.children| && Repeats(n.children, n.children[i].name)
    requires n.children[i].name in Names(n.children[..i])
    ensures n.children[i].name in Names(n.children[..i + 1])
    ensures Entry(n, i, n.children[i].name).JList?
    ensures Entry(n, i + 1, n.children[i].name)
      == JList(Entry(n, i, n.children[i].name).items + [Convert(n.children[i])])
  {
    var cs := n.children;
    var k := cs[i].name;
    NamedExtend(cs, i, k);
    NamedNonEmpty(cs[..i + 1], k);
    var g, g' := Named(cs[..i], k), Named(cs[..i + 1], k);
    assert g' == g + [cs[i]];
    assert Entry(n, i + 1, k).items == Entry(n, i, k).items + [Convert(cs[i])];
  }

  /** The tags among the first `i + 1` children: those among the first `i`,
      and the tag of child `i`. */
  lemma NamesExtend(cs: seq<Node>, i: nat)
    requires i < |cs|
    ensures Names(cs[..i + 1]) == Names(cs[..i]) + {cs[i].name}
  {
    assert cs[..i + 1] == cs[..i] + [cs[i]];
  }

  /** Child `i` written under its tag gives the dictionary of the first `i + 1`
      children, provided `v` is what that tag's entry becomes. */
  lemma FieldsUpdate(n: Node, i: nat, v: JVal)
    requires i < |n.children|
    requires n.children[i].name in Names(n.children[..i + 1])
    requires Entry(n, i + 1, n.children[i].name) == v
    ensures Fields(n, i + 1) == Fields(n, i)[n.children[i].name := v]
  {
    var k0 := n.children[i].name;
    var m, m' := Fields(n, i), Fields(n, i + 1);
    NamesExtend(n.children, i);
    forall k | k in m' ensures k in m[k0 := v] && m'[k] == m[k0 := v][k] {
      if k != k0 {
        EntryOther(n, i, k);
      }
    }
    assert m'.Keys == m[k0 := v].Keys;
  }

  /** One iteration of the source loop, stated on the reference dictionary:
      child `i` is inserted under its tag, or appended to that tag's list. */
  lemma FieldsStep(n: Node, i: nat)
    requires i < |n.children|
    ensures var k := n.children[i].name; var m := Fields(n, i);
      Repeats(n.children, k) && k in m ==> m[k].JList?
    ensures var k := n.children[i].name; var m := Fields(n, i); var v := Convert(n.children[i]);
      Fields(n, i + 1) ==
        if Repeats(n.children, k) then
          if k !in m then m[k := JList([v])]
          else m[k := JList(m[k].items + [v])]
        else m[k := v]
  {
    var k := n.children[i].name;
    if Repeats(n.children, k) {
      if k in Names(n.children[..i]) {
        EntryAppend(n, i);
        FieldsUpdate(n, i, JList(Entry(n, i, k).items + [Convert(n.children[i])]));
      } else {
        EntryFirst(n, i);
        FieldsUpdate(n, i, JList([Convert(n.children[i])]));
      }
    } else {
      EntryUnique(n, i);
      FieldsUpdate(n, i, Convert(n.children[i]));
    }
  }

  /** `xml2json` with own-property lookup: converts `n` by looping over its
      children and inserting or appending each converted child into the result
      dictionary. */
  method XmlToJson(n: Node) returns (r: JVal)
    ensures r == Convert(n)
    decreases n
  {
    var children := n.children;
    if |children| == 0 {
      return JStr(n.text);
    }
    var jsonResult: map<string, JVal> := map[];
    for i := 0 to |children|
      invariant jsonResult == Fields(n, i)
    {
      var child := children[i];
      var childIsArray := |Named(children, child.name)| > 1;
      FieldsStep(n, i);
      var value := XmlToJson(child);
      if childIsArray {
        if child.name !in jsonResult {
          jsonResult := jsonResult[child.name := JList([value])];
        } else {
          jsonResult := jsonResult[child.name := JList(jsonResult[child.name].items + [value])];
        }
      } else {
        jsonResult := jsonResult[child.name := value];
      }
    }
    assert children[..|children|] == children;
    return JObj(jsonResult);
  }

  /* Properties of the conversion */

  /** A node without element children converts to its text, untouched; any
      other node converts to a dictionary whose keys are exactly the distinct
      tags of its children. */
  lemma ConvertShape(n: Node)
    ensures |n.children| == 0 ==> Convert(n) == JStr(n.text)
    ensures |n.children| > 0 ==> Convert(n).JObj? && Convert(n).fields.Keys == Names(n.children)
    ensures |n.children| > 0 ==>
      forall k :: k in Convert(n).fields <==> exists c :: c in n.children && c.name == k
  {
    assert n.children[..|n.children|] == n.children;
  }

  /** A tag found once among the siblings maps to that child converted, not
      to a one-element list. */
  lemma ConvertUnique(n: Node, c: Node)
    requires c in n.children && |Named(n.children, c.name)| == 1
    ensures Convert(n).JObj? && c.name in Convert(n).fields
    ensures Convert(n).fields[c.name] == Convert(c)
  {
    var cs := n.children;
    assert cs[..|cs|] == cs;
    var g := Named(cs, c.name);
    assert c in g;
    assert g == [c];
    assert c.name in Names(cs);
    assert Fields(n, |cs|)[c.name] == Entry(n, |cs|, c.name) == Convert(c);
  }

  /** A tag found `k > 1` times among the siblings maps to a list of length
      `k` whose `j`-th element is the `j`-th child with that tag converted. */
  lemma ConvertRepeated(n: Node, k: string)
    requires Repeats(n.children, k)
    ensures Convert(n).JObj? && k in Convert(n).fields
    ensures var v := Convert(n).fields[k];
      v.JList? && |v.items| == |Named(n.children, k)| &&
      forall j :: 0 <= j < |v.items| ==> v.items[j] == Convert(Named(n.children, k)[j])
  {
    var cs := n.children;
    assert cs[..|cs|] == cs;
    NamedNonEmpty(cs, k);
    var g := Named(cs, k);
    var v := Entry(n, |cs|, k);
    assert Fields(n, |cs|)[k] == v;
    assert v == JList(seq(|g|, j requires 0 <= j < |g| => Convert(g[j])));
  }

  /** Every child is represented under its tag: as the value itself when the
      tag is unique, as an element of the list otherwise. */
  lemma ConvertCoversChild(n: Node, c: Node)
    requires c in n.children
    ensures Convert(n).JObj? && c.name in Convert(n).fields
    ensures var v := Convert(n).fields[c.name];
      if Repeats(n.children, c.name) then v.JList? && Convert(c) in v.items
      else v == Convert(c)
  {
    var cs := n.children;
    var g := Named(cs, c.name);
    assert c in g;
    if Repeats(cs, c.name) {
      ConvertRepeated(n, c.name);
      var j :| 0 <= j < |g| && g[j] == c;
      assert Convert(n).fields[c.name].items[j] == Convert(c);
    } else {
      ConvertUnique(n, c);
    }
  }

  /** Siblings all of whose tags differ. */
  predicate DistinctNames(cs: seq<Node>)
  {
    forall i, j :: 0 <= i < j < |cs| ==> cs[i].name != cs[j].name
  }

  /** A tag carried by child `i` alone groups exactly that child. */
  lemma {:induction false} NamedSingle(cs: seq<Node>, i: nat)
    requires i < |cs|
    requires forall j :: 0 <= j < |cs| && j != i ==> cs[j].name != cs[i].name
    ensures Named(cs, cs[i].name) == [cs[i]]
  {
    var k := cs[i].name;
    var front := cs[..|cs| - 1];
    if i == |cs| - 1 {
      forall j | 0 <= j < |front| ensures front[j].name != k {
        assert front[j] == cs[j];
      }
      NamedNonEmpty(front, k);
    } else {
      NamedSingle(front, i);
    }
  }

  /** With distinct tags there are as many tags as children. */
  lemma {:induction false} DistinctNamesCount(cs: seq<Node>)
    requires DistinctNames(cs)
    ensures |Names(cs)| == |cs|
  {
    if cs != [] {
      var i := |cs| - 1;
      var front := cs[..i];
      DistinctNamesCount(front);
      NamesExtend(cs, i);
      assert cs[..i + 1] == cs;
      forall j | 0 <= j < |front| ensures front[j].name != cs[i].name {
        assert front[j] == cs[j];
      }
    }
  }

  /** When all children have distinct tags, the dictionary has one entry per
      child, each the recursive conversion of that child. */
  lemma ConvertDistinct(n: Node)
    requires |n.children| > 0 && DistinctNames(n.children)
    ensures Convert(n).JObj? && |Convert(n).fields| == |n.children|
    ensures forall i :: 0 <= i < |n.children| ==>
      n.children[i].name in Convert(n).fields &&
      Convert(n).fields[n.children[i].name] == Convert(n.children[i])
  {
    var cs := n.children;
    ConvertShape(n);
    DistinctNamesCount(cs);
    assert |Convert(n).fields| == |Convert(n).fields.Keys|;
    forall i | 0 <= i < |cs|
      ensures cs[i].name in Convert(n).fields && Convert(n).fields[cs[i].name] == Convert(cs[i])
    {
      NamedSingle(cs, i);
      ConvertUnique(n, cs[i]);
    }
  }

  /** A node with a single child converts to a one-entry dictionary. */
  lemma ConvertOneChild(n: Node, c: Node)
    requires n.children == [c]
    ensures Convert(n) == JObj(map[c.name := Convert(c)])
  {
    ConvertDistinct(n);
    ConvertShape(n);
    assert Names(n.children) == {c.name};
  }

  /** A node with two differently named children converts to a two-entry
      dictionary. */
  lemma ConvertTwoChildren(n: Node, a: Node, b: Node)
    requires n.children == [a, b] && a.name != b.name
    ensures Convert(n) == JObj(map[a.name := Convert(a), b.name := Convert(b)])
  {
    var cs := n.children;
    assert Names(cs) == {a.name, b.name} by {
      NamesExtend(cs, 0);
      NamesExtend(cs, 1);
      assert cs[..0] == [] && cs[..2] == cs;
    }
    ConvertShape(n);
    NamedSingle(cs, 0);
    NamedSingle(cs, 1);
    ConvertUnique(n, a);
    ConvertUnique(n, b);
    assert Convert(n).fields == map[a.name := Convert(a), b.name := Convert(b)];
  }
}
