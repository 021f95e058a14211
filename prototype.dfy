/** `xml2json` as JavaScript runs it: the result dictionary is a plain object
    `{}`, so reading `jsonResult[name]` also sees the members every object
    inherits from `Object.prototype`. For a repeated tag that is the name of
    such a member, the "first occurrence" test finds a function rather than
    `undefined`, and the following `.push` throws a TypeError. */
module PrototypeKeys {
  import opened Converter

  /** The members of `Object.prototype` in a browser. */
  const Inherited: set<string> := {
    "constructor", "hasOwnProperty", "isPrototypeOf", "propertyIsEnumerable",
    "toLocaleString", "toString", "valueOf", "__defineGetter__",
    "__defineSetter__", "__lookupGetter__", "__lookupSetter__", "__proto__"
  }

  /** How a call finishes: with a value, or by throwing a TypeError. */
  datatype Completion = Normal(value: JVal) | Throws

  /** `xml2json` with JavaScript property lookup. When it completes, a leaf
      gives its text and any other node a dictionary keyed by exactly the
      distinct child tags. */
  function ConvertAsWritten(n: Node): (r: Completion)
    ensures |n.children| == 0 ==> r == Normal(JStr(n.text))
    ensures r.Normal? && |n.children| > 0 ==>
      r.value.JObj? && r.value.fields.Keys == Names(n.children)
    decreases n, 1
  {
    assert n.children[0..] == n.children;
    if |n.children| == 0 then Normal(JStr(n.text)) else LoopAsWritten(n, 0, map[])
  }

  /** The `for` loop from child `i` on; `own` holds the own properties of
      `jsonResult` so far. */
  function LoopAsWritten(n: Node, i: nat, own: map<string, JVal>): (r: Completion)
    requires i <= |n.children|
    ensures r.Normal? ==>
      r.value.JObj? && r.value.fields.Keys == own.Keys + Names(n.children[i..])
    decreases n, 0, |n.children| - i
  {
    if i == |n.children| then
      assert n.children[i..] == [];
      Normal(JObj(own))
    else
      var child := n.children[i];
      NamesSuffix(n.children, i);
      match ConvertAsWritten(child)
      case Throws => Throws
      case Normal(v) =>
        if Repeats(n.children, child.name) then
          if child.name in own then
            // `.push` exists only on the arrays this loop itself created
            if own[child.name].JList? then
              LoopAsWritten(n, i + 1, own[child.name := JList(own[child.name].items + [v])])
            else Throws
          else if child.name in Inherited then Throws
          else LoopAsWritten(n, i + 1, own[child.name := JList([v])])
        else LoopAsWritten(n, i + 1, own[child.name := v])
  }

  /** The tags from child `i` on: child `i`'s tag and those after it. */
  lemma NamesSuffix(cs: seq<Node>, i: nat)
    requires i < |cs|
    ensures Names(cs[i..]) == {cs[i].name} + Names(cs[i + 1..])
  {
    assert cs[i..] == [cs[i]] + cs[i + 1..];
  }

  /** No element anywhere in the tree is named like a member of `Object.prototype`. */
  predicate NoInheritedTags(n: Node)
    decreases n
  {
    forall c :: c in n.children ==> c.name !in Inherited && NoInheritedTags(c)
  }

  /** On trees without such names, the JavaScript behaviour is the converter's. */
  lemma {:induction false} AsWrittenAgrees(n: Node)
    requires NoInheritedTags(n)
    ensures ConvertAsWritten(n) == Normal(Convert(n))
    decreases n, 1
  {
    if |n.children| > 0 {
      assert Names(n.children[..0]) == {};
      assert Fields(n, 0) == map[];
      LoopAgrees(n, 0);
    }
  }

  /** The loop, started on the reference dictionary of the first `i` children,
      completes with the converted node. */
  lemma {:induction false} LoopAgrees(n: Node, i: nat)
    requires NoInheritedTags(n) && 0 < |n.children| && i <= |n.children|
    ensures LoopAsWritten(n, i, Fields(n, i)) == Normal(Convert(n))
    decreases n, 0, |n.children| - i
  {
    if i < |n.children| {
      var child := n.children[i];
      AsWrittenAgrees(child);
      FieldsStep(n, i);
      LoopAgrees(n, i + 1);
    }
  }

  /** A conversion that throws inside any child makes the whole conversion
      throw: nothing in the loop catches it. */
  lemma {:induction false} ChildThrows(n: Node, i: nat, own: map<string, JVal>, j: nat)
    requires i <= j < |n.children| && ConvertAsWritten(n.children[j]) == Throws
    ensures LoopAsWritten(n, i, own) == Throws
    decreases j - i
  {
    if i < j {
      var child := n.children[i];
      match ConvertAsWritten(child)
      case Throws =>
      case Normal(v) =>
        if Repeats(n.children, child.name) {
          if child.name in own {
            if own[child.name].JList? {
              ChildThrows(n, i + 1, own[child.name := JList(own[child.name].items + [v])], j);
            }
          } else if child.name !in Inherited {
            ChildThrows(n, i + 1, own[child.name := JList([v])], j);
          }
        } else {
          ChildThrows(n, i + 1, own[child.name := v], j);
        }
    }
  }

  /** The first occurrence of tag `k` among `cs`. */
  lemma {:induction false} FirstOccurrence(cs: seq<Node>, k: string) returns (j: nat)
    requires k in Names(cs)
    ensures j < |cs| && cs[j].name == k
    ensures forall m :: 0 <= m < j ==> cs[m].name != k
  {
    if cs[0].name == k {
      j := 0;
    } else {
      assert cs == [cs[0]] + cs[1..];
      var c :| c in cs && c.name == k;
      assert c in cs[1..];
      var j' := FirstOccurrence(cs[1..], k);
      j := j' + 1;
      forall m | 0 <= m < j ensures cs[m].name != k {
        if m > 0 { assert cs[m] == cs[1..][m - 1]; }
      }
    }
  }

  /** From child `i` on, as long as the repeated inherited tag `k` has not
      been stored as an own property, the loop throws when it reaches `k`'s
      next occurrence `j` (or earlier). */
  lemma {:induction false} InheritedRepeatThrowsFrom(n: Node, i: nat, own: map<string, JVal>, j: nat)
    requires i <= j < |n.children|
    requires n.children[j].name in Inherited && Repeats(n.children, n.children[j].name)
    requires n.children[j].name !in own
    requires forall m :: i <= m < j ==> n.children[m].name != n.children[j].name
    ensures LoopAsWritten(n, i, own) == Throws
    decreases j - i
  {
    var child, k := n.children[i], n.children[j].name;
    if i < j {
      assert child.name != k;
      match ConvertAsWritten(child)
      case Throws =>
      case Normal(v) =>
        if Repeats(n.children, child.name) {
          if child.name in own {
            if own[child.name].JList? {
              var next := own[child.name := JList(own[child.name].items + [v])];
              assert k !in next;
              InheritedRepeatThrowsFrom(n, i + 1, next, j);
            }
          } else if child.name !in Inherited {
            var next := own[child.name := JList([v])];
            assert k !in next;
            InheritedRepeatThrowsFrom(n, i + 1, next, j);
          }
        } else {
          var next := own[child.name := v];
          assert k !in next;
          InheritedRepeatThrowsFrom(n, i + 1, next, j);
        }
    }
  }

  /** A tag named like a member of `Object.prototype` that occurs more than
      once among the children makes the conversion throw. */
  lemma InheritedRepeatThrows(n: Node, c: Node)
    requires c in n.children && c.name in Inherited && Repeats(n.children, c.name)
    ensures ConvertAsWritten(n) == Throws
  {
    var j := FirstOccurrence(n.children, c.name);
    InheritedRepeatThrowsFrom(n, 0, map[], j);
  }

  /** A child whose conversion throws makes its parent's conversion throw. */
  lemma ThrowPropagates(n: Node, c: Node)
    requires c in n.children && ConvertAsWritten(c) == Throws
    ensures ConvertAsWritten(n) == Throws
  {
    var j :| 0 <= j < |n.children| && n.children[j] == c;
    ChildThrows(n, 0, map[], j);
  }

  /** Two siblings named `constructor`: JavaScript throws, while the intended
      result lists both. */
  lemma ConstructorTagsThrow()
    ensures var n := Node("list", [Node("constructor", [], "a"), Node("constructor", [], "b")], "");
      ConvertAsWritten(n) == Throws &&
      Convert(n) == JObj(map["constructor" := JList([JStr("a"), JStr("b")])])
  {
    var a, b := Node("constructor", [], "a"), Node("constructor", [], "b");
    var n := Node("list", [a, b], "");
    assert n.children[..0] == [];
    assert Named(n.children, "constructor") == [a, b] by {
      assert n.children[..1] == [a];
      assert n.children[..1][..0] == [];
    }
    assert ConvertAsWritten(a) == Normal(JStr("a"));
    assert ConvertAsWritten(n) == LoopAsWritten(n, 0, map[]);
    ConvertRepeated(n, "constructor");
    ConvertShape(n);
    assert Names(n.children) == {"constructor"};
    var v := Convert(n).fields["constructor"];
    assert v.items == [JStr("a"), JStr("b")];
  }
}
