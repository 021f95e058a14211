/** How the component interprets a lookup response: a city/state update when
    `CityStateLookupResponse.ZipCode.City` is present, an error pair when
    `ZipCode.Error` is present instead, and no change otherwise. `Decide`
    reads a converted response; `Respond` starts from the parsed document and
    converts it as JavaScript does, so a TypeError thrown by the conversion is
    caught and changes nothing. */
module Lookup {
  import opened Converter
  import opened PrototypeKeys

  datatype Option<T> = None | Some(value: T)

  /** `v?.key` on a converted value: `undefined` stays `undefined`, a
      dictionary yields its entry, and a string or a list has no property of
      the names read here. */
  function Member(v: Option<JVal>, key: string): Option<JVal>
  {
    match v
    case Some(JObj(fields)) => if key in fields then Some(fields[key]) else None
    case _ => None
  }

  /** JavaScript truthiness of a property read: `undefined` and the empty
      string are falsy, every other string and every array or object truthy. */
  predicate Truthy(v: Option<JVal>)
  {
    match v
    case None => false
    case Some(JStr(s)) => s != ""
    case Some(_) => true
  }

  /** `res?.CityStateLookupResponse?.ZipCode?.<key>`. */
  function ZipCodeField(res: JVal, key: string): Option<JVal>
  {
    Member(Member(Member(Some(res), "CityStateLookupResponse"), "ZipCode"), key)
  }

  /** What a response does to the displayed city and state. */
  datatype Outcome =
    | SetCityState(city: JVal, state: Option<JVal>)
    | ShowInvalid(message: string, retry: string)
    | NoChange

  /** The branch logic of `fetchCityState` for the response to `zipcode`. */
  function Decide(res: JVal, zipcode: string): (o: Outcome)
    ensures o.SetCityState? <==> Truthy(ZipCodeField(res, "City"))
    ensures o.SetCityState? ==>
      ZipCodeField(res, "City") == Some(o.city) && o.state == ZipCodeField(res, "State")
    ensures o.ShowInvalid? <==> !Truthy(ZipCodeField(res, "City")) && Truthy(ZipCodeField(res, "Error"))
    ensures o.ShowInvalid? ==> o.message == "Invalid Zip Code for " + zipcode && o.retry == "Try Again"
  {
    var city := ZipCodeField(res, "City");
    if Truthy(city) then SetCityState(city.value, ZipCodeField(res, "State"))
    else if Truthy(ZipCodeField(res, "Error")) then ShowInvalid("Invalid Zip Code for " + zipcode, "Try Again")
    else NoChange
  }

  /** Lines 57-87 of `fetchCityState` once the body is parsed: the document
      is converted as JavaScript does, the result decided on, and a TypeError
      thrown by the conversion is caught by the `catch`, changing nothing. */
  function Respond(doc: Node, zipcode: string): (o: Outcome)
    ensures ConvertAsWritten(doc).Throws? ==> o == NoChange
    ensures NoInheritedTags(doc) ==> o == Decide(Convert(doc), zipcode)
  {
    var converted := ConvertAsWritten(doc);
    assert NoInheritedTags(doc) ==> converted == Normal(Convert(doc)) by {
      if NoInheritedTags(doc) { AsWrittenAgrees(doc); }
    }
    match converted
    case Throws => NoChange
    case Normal(res) => Decide(res, zipcode)
  }

  /** The document node around the response element `resp`, and the unique
      `ZipCode` element `zc` inside it. */
  predicate ResponseShape(doc: Node, resp: Node, zc: Node)
  {
    && doc.children == [resp] && resp.name == "CityStateLookupResponse"
    && zc in resp.children && zc.name == "ZipCode" && |Named(resp.children, "ZipCode")| == 1
  }

  /** Within such a document, `ZipCode.<key>` of the converted response reads
      the unique `<key>` child of `zc`, converted. */
  lemma ZipCodeFieldOf(doc: Node, resp: Node, zc: Node, c: Node)
    requires ResponseShape(doc, resp, zc)
    requires c in zc.children && |Named(zc.children, c.name)| == 1
    ensures ZipCodeField(Convert(doc), c.name) == Some(Convert(c))
  {
    assert |Named(doc.children, resp.name)| == 1 by {
      assert doc.children[..0] == [];
    }
    ConvertUnique(doc, resp);
    ConvertUnique(resp, zc);
    ConvertUnique(zc, c);
  }

  /** Within such a document, a `ZipCode` without a `<key>` child has no
      `<key>` property, for a key that `Object.prototype` does not supply. */
  lemma ZipCodeFieldAbsent(doc: Node, resp: Node, zc: Node, key: string)
    requires ResponseShape(doc, resp, zc) && key !in Inherited
    requires forall c :: c in zc.children ==> c.name != key
    ensures ZipCodeField(Convert(doc), key) == None
  {
    assert |Named(doc.children, resp.name)| == 1 by {
      assert doc.children[..0] == [];
    }
    ConvertUnique(doc, resp);
    ConvertUnique(resp, zc);
    ConvertShape(zc);
  }

  /** A response whose `ZipCode` has a non-empty `City` sets the city to that
      text and the state to the conversion of the `State` element, whether or
      not an `Error` element is present too. */
  lemma CityResponse(doc: Node, resp: Node, zc: Node, city: Node, state: Node, zipcode: string)
    requires ResponseShape(doc, resp, zc) && NoInheritedTags(doc)
    requires city in zc.children && city.name == "City" && |Named(zc.children, "City")| == 1
    requires city.children == [] && city.text != ""
    requires state in zc.children && state.name == "State" && |Named(zc.children, "State")| == 1
    ensures Respond(doc, zipcode) == SetCityState(JStr(city.text), Some(Convert(state)))
  {
    ZipCodeFieldOf(doc, resp, zc, city);
    ZipCodeFieldOf(doc, resp, zc, state);
  }

  /** A response whose `ZipCode` has no `City` but a non-empty `Error` shows the
      invalid-zip message for the zip that was looked up. */
  lemma ErrorResponse(doc: Node, resp: Node, zc: Node, err: Node, zipcode: string)
    requires ResponseShape(doc, resp, zc) && NoInheritedTags(doc)
    requires forall c :: c in zc.children ==> c.name != "City"
    requires err in zc.children && err.name == "Error" && |Named(zc.children, "Error")| == 1
    requires err.children != [] || err.text != ""
    ensures Respond(doc, zipcode) == ShowInvalid("Invalid Zip Code for " + zipcode, "Try Again")
  {
    ZipCodeFieldAbsent(doc, resp, zc, "City");
    ZipCodeFieldOf(doc, resp, zc, err);
    ConvertShape(err);
  }

  /** An empty `City` element is falsy: without an `Error` element nothing
      changes, so the loading indicator stays on. */
  lemma EmptyCityResponse(doc: Node, resp: Node, zc: Node, city: Node, zipcode: string)
    requires ResponseShape(doc, resp, zc) && NoInheritedTags(doc)
    requires city in zc.children && city.name == "City" && |Named(zc.children, "City")| == 1
    requires city.children == [] && city.text == ""
    requires forall c :: c in zc.children ==> c.name != "Error"
    ensures Respond(doc, zipcode) == NoChange
  {
    ZipCodeFieldOf(doc, resp, zc, city);
    ZipCodeFieldAbsent(doc, resp, zc, "Error");
  }

  /** A document whose root element is not `CityStateLookupResponse` (such as
      the `parsererror` document of a malformed body) changes nothing, whether
      or not its conversion throws. A root named `__proto__` is excluded: in
      the browser its assignment replaces the prototype of the result, through
      which the names read afterwards can resolve. */
  lemma OtherRootResponse(doc: Node, root: Node, zipcode: string)
    requires doc.children == [root] && root.name != "CityStateLookupResponse"
    requires root.name != "__proto__"
    ensures Respond(doc, zipcode) == NoChange
  {
    assert Names(doc.children) == {root.name};
    ConvertShape(doc);
  }

  function Leaf(name: string, text: string): Node
  {
    Node(name, [], text)
  }

  /** The success example: `<CityStateLookupResponse><ZipCode><City>Memphis</City>
      <State>TN</State></ZipCode></CityStateLookupResponse>`. */
  lemma MemphisExample(zipcode: string)
    ensures var doc := Node("#document", [Node("CityStateLookupResponse",
        [Node("ZipCode", [Leaf("City", "Memphis"), Leaf("State", "TN")], "")], "")], "");
      && Convert(doc) == JObj(map["CityStateLookupResponse" :=
           JObj(map["ZipCode" := JObj(map["City" := JStr("Memphis"), "State" := JStr("TN")])])])
      && Decide(Convert(doc), zipcode) == SetCityState(JStr("Memphis"), Some(JStr("TN")))
  {
    var city, state := Leaf("City", "Memphis"), Leaf("State", "TN");
    var zc := Node("ZipCode", [city, state], "");
    var resp := Node("CityStateLookupResponse", [zc], "");
    var doc := Node("#document", [resp], "");
    var z := map["City" := JStr("Memphis"), "State" := JStr("TN")];
    assert Convert(doc) == JObj(map["CityStateLookupResponse" := JObj(map["ZipCode" := JObj(z)])])
      && Decide(Convert(doc), zipcode) == SetCityState(JStr("Memphis"), Some(JStr("TN"))) by {
      assert Convert(city) == JStr("Memphis") && Convert(state) == JStr("TN");
      ConvertTwoChildren(zc, city, state);
      assert Convert(zc) == JObj(z);
      ConvertOneChild(resp, zc);
      ConvertOneChild(doc, resp);
      assert ZipCodeField(Convert(doc), "City") == Some(JStr("Memphis"));
      assert ZipCodeField(Convert(doc), "State") == Some(JStr("TN"));
    }
  }

  /** In the browser, the Memphis response sets Memphis / TN as well. */
  lemma MemphisResponse(zipcode: string)
    ensures var doc := Node("#document", [Node("CityStateLookupResponse",
        [Node("ZipCode", [Leaf("City", "Memphis"), Leaf("State", "TN")], "")], "")], "");
      Respond(doc, zipcode) == SetCityState(JStr("Memphis"), Some(JStr("TN")))
  {
    var city, state := Leaf("City", "Memphis"), Leaf("State", "TN");
    var zc := Node("ZipCode", [city, state], "");
    var resp := Node("CityStateLookupResponse", [zc], "");
    var doc := Node("#document", [resp], "");
    assert NoInheritedTags(city) && NoInheritedTags(state);
    assert NoInheritedTags(zc) && NoInheritedTags(resp) && NoInheritedTags(doc);
    assert resp.children[..0] == [] && zc.children[..0] == [] && zc.children[..1] == [city];
    assert |Named(resp.children, "ZipCode")| == 1;
    assert |Named(zc.children, "City")| == 1 && |Named(zc.children, "State")| == 1;
    CityResponse(doc, resp, zc, city, state, zipcode);
  }

  /** A `ZipCode` with a repeated child named like a member of
      `Object.prototype` (two `toString` elements, say) makes the conversion
      throw; the `catch` then leaves the display unchanged, whatever `City`
      holds. */
  lemma InheritedTagResponse(doc: Node, resp: Node, zc: Node, c: Node, zipcode: string)
    requires doc.children == [resp] && zc in resp.children
    requires c in zc.children && c.name in Inherited && Repeats(zc.children, c.name)
    ensures ConvertAsWritten(doc) == Throws && Respond(doc, zipcode) == NoChange
  {
    InheritedRepeatThrows(zc, c);
    ThrowPropagates(resp, zc);
    ThrowPropagates(doc, resp);
  }

  /** The error example: `<CityStateLookupResponse><ZipCode><Error>Invalid Zip
      Code</Error></ZipCode></CityStateLookupResponse>`. */
  lemma InvalidExample(zipcode: string)
    ensures var doc := Node("#document", [Node("CityStateLookupResponse",
        [Node("ZipCode", [Leaf("Error", "Invalid Zip Code")], "")], "")], "");
      && Convert(doc) == JObj(map["CityStateLookupResponse" :=
           JObj(map["ZipCode" := JObj(map["Error" := JStr("Invalid Zip Code")])])])
      && Decide(Convert(doc), zipcode) == ShowInvalid("Invalid Zip Code for " + zipcode, "Try Again")
  {
    var err := Leaf("Error", "Invalid Zip Code");
    var zc := Node("ZipCode", [err], "");
    var resp := Node("CityStateLookupResponse", [zc], "");
    var doc := Node("#document", [resp], "");
    assert Convert(doc) == JObj(map["CityStateLookupResponse" :=
        JObj(map["ZipCode" := JObj(map["Error" := JStr("Invalid Zip Code")])])]) by {
      ConvertOneChild(zc, err);
      ConvertOneChild(resp, zc);
      ConvertOneChild(doc, resp);
    }
  }

  /** In the browser, the error response shows the invalid-zip message as well. */
  lemma InvalidResponse(zipcode: string)
    ensures var doc := Node("#document", [Node("CityStateLookupResponse",
        [Node("ZipCode", [Leaf("Error", "Invalid Zip Code")], "")], "")], "");
      Respond(doc, zipcode) == ShowInvalid("Invalid Zip Code for " + zipcode, "Try Again")
  {
    var err := Leaf("Error", "Invalid Zip Code");
    var zc := Node("ZipCode", [err], "");
    var resp := Node("CityStateLookupResponse", [zc], "");
    var doc := Node("#document", [resp], "");
    assert NoInheritedTags(err) && NoInheritedTags(zc);
    assert NoInheritedTags(resp) && NoInheritedTags(doc);
    assert resp.children[..0] == [] && zc.children[..0] == [];
    assert |Named(resp.children, "ZipCode")| == 1 && |Named(zc.children, "Error")| == 1;
    ErrorResponse(doc, resp, zc, err, zipcode);
  }
}
