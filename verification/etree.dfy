/** Conversion between XML element trees and nested dictionaries
    (large_image/tilesource/utilities.py:459-524).  Namespaces are dropped
    from tag and attribute names, repeated child tags become lists, a
    text-only element becomes its text, and otherwise the text is kept
    under the key `'text'`.  The reverse conversion turns lists into
    repeated children, dictionaries into children, and strings into
    attributes, or into the element text under `'text'`. */
module Etree {
  import opened Wrappers
  import opened Dicts
  import opened Strings

  /** An XML element: its tag, attributes in document order, text and
      children.  It has no tail: the text after an element's end tag,
      which `etreeToDict` never reads, is not represented. */
  datatype Element = Element(tag: string, attrib: Dict<string, string>, text: Option<string>, children: seq<Element>)

  /** The values of the nested dictionaries. */
  datatype XVal =
    | XStr(s: string)
    | XDict(entries: Dict<string, XVal>)
    | XList(items: seq<XVal>)

  /** A name the parser can produce: one that opens a `{namespace}` also
      closes it. */
  predicate NameOk(n: string) {
    StartsWith(n, "{") ==> '}' in n
  }

  /** The name without its `{namespace}` prefix: what follows the first
      `}`. */
  function Local(n: string): (r: string)
    requires NameOk(n)
    ensures !StartsWith(n, "{") ==> r == n
    ensures StartsWith(n, "{") ==> exists k :: 0 < k < |n| && n[k] == '}' && '}' !in n[..k] && r == n[k + 1..]
  {
    if StartsWith(n, "{") then
      var k := IndexOf(n, '}');
      assert n[k] in n;
      assert forall j | 0 <= j < k :: n[..k][j] == n[j];
      n[k + 1..]
    else n
  }

  /** Every tag and attribute name in the tree is one the parser can
      produce. */
  predicate WellNamed(e: Element) {
    && NameOk(e.tag)
    && (forall i | 0 <= i < |e.attrib| :: NameOk(e.attrib[i].0))
    && (forall i | 0 <= i < |e.children| :: NameOk(e.children[i].tag) && WellNamed(e.children[i]))
  }

  // ---- etreeToDict ----

  /** The values of the entries with key `k`, in order. */
  function ValuesOf(cv: seq<(string, XVal)>, k: string): (r: seq<XVal>)
    ensures |r| <= |cv|
  {
    if cv == [] then []
    else ValuesOf(cv[..|cv| - 1], k) + (if cv[|cv| - 1].0 == k then [cv[|cv| - 1].1] else [])
  }

  /** `entries[k].append(v)` for every child entry: the values of each key
      collected in a list, keys in order of first appearance. */
  function Group(cv: seq<(string, XVal)>): (r: Dict<string, seq<XVal>>)
    ensures UniqueKeys(r)
    ensures Keys(r) == Keys(cv)
    ensures forall k | k in Keys(r) :: Get(r, k) == Some(ValuesOf(cv, k))
  {
    if cv == [] then []
    else
      var rest := Group(cv[..|cv| - 1]);
      var (k, v) := cv[|cv| - 1];
      var r := Put(rest, k, Get(rest, k).GetOr([]) + [v]);
      assert cv == cv[..|cv| - 1] + [(k, v)];
      KeysSnoc(cv[..|cv| - 1], k, v);
      forall key | key in Keys(r) ensures Get(r, key) == Some(ValuesOf(cv, key)) {
        if key != k {
          assert ValuesOf(cv, key) == ValuesOf(cv[..|cv| - 1], key);
        } else if k !in Keys(rest) {
          assert ValuesOf(cv[..|cv| - 1], k) == [] by {
            ValuesOfAbsent(cv[..|cv| - 1], k);
          }
        }
      }
      r
  }

  lemma {:induction false} ValuesOfAbsent(cv: seq<(string, XVal)>, k: string)
    requires forall i | 0 <= i < |cv| :: cv[i].0 != k
    ensures ValuesOf(cv, k) == []
  {
    if cv != [] {
      ValuesOfAbsent(cv[..|cv| - 1], k);
    }
  }

  /** A single value stays plain; several become a list. */
  function Collapse(d: Dict<string, seq<XVal>>): (r: Dict<string, XVal>)
    ensures |r| == |d|
    ensures forall i | 0 <= i < |d| :: r[i].0 == d[i].0 && r[i].1 == if |d[i].1| == 1 then d[i].1[0] else XList(d[i].1)
  {
    seq(|d|, i requires 0 <= i < |d| => (d[i].0, if |d[i].1| == 1 then d[i].1[0] else XList(d[i].1)))
  }

  /** The local names of the attributes. */
  function AttributeNames(attrib: Dict<string, string>): set<string>
    requires forall i | 0 <= i < |attrib| :: NameOk(attrib[i].0)
  {
    if attrib == [] then {} else AttributeNames(attrib[..|attrib| - 1]) + {Local(attrib[|attrib| - 1].0)}
  }

  /** `d.update({local(k): v for k, v in attrib.items()})`: attributes in
      order, a later attribute with the same local name winning. */
  function PutAttributes(d: Dict<string, XVal>, attrib: Dict<string, string>): (r: Dict<string, XVal>)
    requires forall i | 0 <= i < |attrib| :: NameOk(attrib[i].0)
    ensures UniqueKeys(d) ==> UniqueKeys(r)
    ensures Keys(r) == Keys(d) + AttributeNames(attrib)
  {
    if attrib == [] then d
    else
      var last := |attrib| - 1;
      var rest := PutAttributes(d, attrib[..last]);
      Put(rest, Local(attrib[last].0), XStr(attrib[last].1))
  }

  /** The text of an element with surrounding whitespace removed; no
      text counts as empty. */
  function TextOf(e: Element): string {
    Strip(e.text.GetOr(""))
  }

  /** The dictionary of an element before its text is considered: its
      children grouped by tag, then its attributes. */
  function Entries(values: seq<(string, XVal)>, attrib: Dict<string, string>): (r: Dict<string, XVal>)
    requires forall i | 0 <= i < |attrib| :: NameOk(attrib[i].0)
    ensures UniqueKeys(r)
    ensures Keys(r) == Keys(values) + AttributeNames(attrib)
  {
    var g := Group(values);
    var grouped := Collapse(g);
    assert Keys(grouped) == Keys(g) by {
      forall x | x in Keys(g) ensures x in Keys(grouped) {
        var j :| 0 <= j < |g| && g[j].0 == x;
        assert grouped[j].0 == x;
      }
    }
    PutAttributes(grouped, attrib)
  }

  /** A dictionary is empty exactly when it has no keys. */
  lemma EmptyKeys<K, V>(d: Dict<K, V>)
    ensures |d| == 0 <==> Keys(d) == {}
  {
    if |d| > 0 {
      assert d[0].0 in Keys(d);
    }
  }

  lemma AttributeNamesEmpty(attrib: Dict<string, string>)
    requires forall i | 0 <= i < |attrib| :: NameOk(attrib[i].0)
    ensures AttributeNames(attrib) == {} <==> attrib == []
  {
  }

  /** The `{tag: value}` entries of the children, in document order. */
  function ChildEntries(e: Element): (r: seq<(string, XVal)>)
    requires WellNamed(e)
    ensures |r| == |e.children|
    ensures forall i | 0 <= i < |e.children| :: r[i] == ToDict(e.children[i])
    decreases e, 0
  {
    seq(|e.children|, i requires 0 <= i < |e.children| => ToDict(e.children[i]))
  }

  /** The value of an element given its entries and stripped text: the
      text alone when there are no entries, or stored under `'text'`. */
  function Finish(entries: Dict<string, XVal>, text: string): XVal {
    if text != "" && |entries| > 0 then XDict(Put(entries, "text", XStr(text)))
    else if text != "" then XStr(text)
    else XDict(entries)
  }

  /** `etreeToDict`: the single entry `{tag: value}` of the dictionary it
      returns. */
  function ToDict(e: Element): (r: (string, XVal))
    requires WellNamed(e)
    ensures r.0 == Local(e.tag)
    ensures r.1.XStr? <==> e.children == [] && e.attrib == [] && TextOf(e) != ""
    ensures r.1.XStr? ==> r.1.s == TextOf(e)
    ensures !r.1.XList?
    ensures r.1.XDict? ==> UniqueKeys(r.1.entries)
    decreases e, 1
  {
    var values := ChildEntries(e);
    var entries := Entries(values, e.attrib);
    EmptyKeys(entries);
    EmptyKeys(values);
    AttributeNamesEmpty(e.attrib);
    (Local(e.tag), Finish(entries, TextOf(e)))
  }

  // ---- what the dictionary holds ----

  /** The local names of the children's tags. */
  function ChildTags(e: Element): set<string>
    requires WellNamed(e)
  {
    set i | 0 <= i < |e.children| :: Local(e.children[i].tag)
  }

  /** The value of the last attribute with local name `n`. */
  function LastAttribute(attrib: Dict<string, string>, n: string): (r: Option<string>)
    requires forall i | 0 <= i < |attrib| :: NameOk(attrib[i].0)
    ensures r.Some? <==> n in AttributeNames(attrib)
  {
    if attrib == [] then None
    else if Local(attrib[|attrib| - 1].0) == n then Some(attrib[|attrib| - 1].1)
    else LastAttribute(attrib[..|attrib| - 1], n)
  }

  /** What a group of children with one tag becomes. */
  function Single(vs: seq<XVal>): XVal {
    if |vs| == 1 then vs[0] else XList(vs)
  }

  lemma FindCollapse(g: Dict<string, seq<XVal>>, k: string)
    ensures Find(Collapse(g), k) == Find(g, k)
  {
    var c := Collapse(g);
    var a, b := Find(c, k), Find(g, k);
    if a >= 0 {
      assert g[a].0 == k;
    }
    if b >= 0 {
      assert c[b].0 == k;
    }
  }

  lemma GetCollapse(g: Dict<string, seq<XVal>>, k: string)
    ensures Get(Collapse(g), k) == if k in Keys(g) then Some(Single(Get(g, k).value)) else None
  {
    FindCollapse(g, k);
  }

  lemma {:induction false} GetPutAttributes(d: Dict<string, XVal>, attrib: Dict<string, string>, k: string)
    requires forall i | 0 <= i < |attrib| :: NameOk(attrib[i].0)
    ensures Get(PutAttributes(d, attrib), k)
            == if k in AttributeNames(attrib) then Some(XStr(LastAttribute(attrib, k).value)) else Get(d, k)
  {
    if attrib != [] {
      GetPutAttributes(d, attrib[..|attrib| - 1], k);
    }
  }

  lemma TaggedKeys(cv: seq<(string, XVal)>, children: seq<Element>)
    requires |cv| == |children|
    requires forall i | 0 <= i < |children| :: NameOk(children[i].tag) && cv[i].0 == Local(children[i].tag)
    ensures Keys(cv) == set i | 0 <= i < |children| :: Local(children[i].tag)
  {
    forall x | x in Keys(cv) ensures x in set i | 0 <= i < |children| :: Local(children[i].tag) {
      var i :| 0 <= i < |cv| && cv[i].0 == x;
      assert Local(children[i].tag) == x;
    }
  }

  lemma ChildEntriesKeys(e: Element)
    requires WellNamed(e)
    ensures Keys(ChildEntries(e)) == ChildTags(e)
  {
    var cv := ChildEntries(e);
    forall i | 0 <= i < |e.children| ensures cv[i].0 == Local(e.children[i].tag) {
      assert cv[i] == ToDict(e.children[i]);
    }
    TaggedKeys(cv, e.children);
  }

  /** The keys of an element's dictionary: its children's tags, its
      attributes' names, and `'text'` when it has text. */
  lemma ToDictKeys(e: Element)
    requires WellNamed(e) && ToDict(e).1.XDict?
    ensures Keys(ToDict(e).1.entries)
            == ChildTags(e) + AttributeNames(e.attrib) + if TextOf(e) != "" then {"text"} else {}
  {
    ChildEntriesKeys(e);
  }

  /** Text next to children or attributes is kept under `'text'`. */
  lemma ToDictText(e: Element)
    requires WellNamed(e) && ToDict(e).1.XDict? && TextOf(e) != ""
    ensures Get(ToDict(e).1.entries, "text") == Some(XStr(TextOf(e)))
  {
  }

  /** An attribute's value is that of the last attribute with its local
      name, unless text displaces it. */
  lemma ToDictAttribute(e: Element, n: string)
    requires WellNamed(e) && ToDict(e).1.XDict?
    requires n in AttributeNames(e.attrib) && (n == "text" ==> TextOf(e) == "")
    ensures Get(ToDict(e).1.entries, n) == Some(XStr(LastAttribute(e.attrib, n).value))
  {
    GetPutAttributes(Collapse(Group(ChildEntries(e))), e.attrib, n);
  }

  /** A child tag maps to the child's value when it occurs once and to
      the list of values, in document order, when it occurs more often,
      unless an attribute or the text displaces it. */
  lemma ToDictChild(e: Element, k: string)
    requires WellNamed(e) && ToDict(e).1.XDict?
    requires k in ChildTags(e) && k !in AttributeNames(e.attrib) && (k == "text" ==> TextOf(e) == "")
    ensures Get(ToDict(e).1.entries, k) == Some(Single(ValuesOf(ChildEntries(e), k)))
    ensures |ValuesOf(ChildEntries(e), k)| >= 1
  {
    var cv := ChildEntries(e);
    ChildEntriesKeys(e);
    GetPutAttributes(Collapse(Group(cv)), e.attrib, k);
    GetCollapse(Group(cv), k);
    var i :| 0 <= i < |e.children| && Local(e.children[i].tag) == k;
    ValuesOfPresent(cv, k, i);
  }

  lemma {:induction false} ValuesOfPresent(cv: seq<(string, XVal)>, k: string, i: nat)
    requires i < |cv| && cv[i].0 == k
    ensures |ValuesOf(cv, k)| >= 1
  {
    if i < |cv| - 1 {
      ValuesOfPresent(cv[..|cv| - 1], k, i);
    }
  }

  // ---- dictToEtree ----

  /** Why a dictionary cannot be turned back into elements: a value that
      must hold entries (the value of the root, a nested dictionary, or an
      item of a list) is not a dictionary, so asking for its items fails. */
  datatype EtreeError = NotADict

  /** A value `dictToEtree` accepts as the contents of an element. */
  predicate Convertible(v: XVal)
    decreases v, 0
  {
    v.XDict? && forall i | 0 <= i < |v.entries| :: EntryConvertible(v.entries[i].1)
  }

  /** An entry value it accepts: every item of a list and every nested
      dictionary convertible, and any string. */
  predicate EntryConvertible(v: XVal)
    decreases v, 1
  {
    match v
    case XStr(_) => true
    case XDict(_) => Convertible(v)
    case XList(items) => forall j | 0 <= j < |items| :: Convertible(items[j])
  }

  /** A new element with only a tag. */
  function Bare(tag: string): Element {
    Element(tag, [], None, [])
  }

  /** `dictToEtree(v, Element(tag))`. */
  function ToElement(tag: string, v: XVal): (r: Result<Element, EtreeError>)
    ensures r.Ok? <==> Convertible(v)
    ensures r.Ok? ==> r.value.tag == tag
    decreases v, 2
  {
    if v.XDict? then Fill(Bare(tag), v, 0) else Err(NotADict)
  }

  /** The entries of `d` from position `i` on, added to `root`: a list
      adds one child per item, a dictionary one child, and a string the
      text under `'text'` or else an attribute. */
  function Fill(root: Element, d: XVal, i: nat): (r: Result<Element, EtreeError>)
    requires d.XDict? && i <= |d.entries|
    ensures r.Ok? <==> forall j | i <= j < |d.entries| :: EntryConvertible(d.entries[j].1)
    ensures r.Ok? ==> r.value.tag == root.tag
    decreases d, 1, |d.entries| - i
  {
    if i == |d.entries| then Ok(root)
    else
      var (k, v) := d.entries[i];
      assert d.entries[i] in d.entries;
      var next :- Add(root, k, v);
      Fill(next, d, i + 1)
  }

  /** One entry added to `root`. */
  function Add(root: Element, k: string, v: XVal): (r: Result<Element, EtreeError>)
    ensures r.Ok? <==> EntryConvertible(v)
    ensures r.Ok? ==> r.value.tag == root.tag
    ensures r.Ok? && v.XStr? && k == "text" ==> r.value == root.(text := Some(v.s))
    ensures r.Ok? && v.XStr? && k != "text" ==> r.value == root.(attrib := Put(root.attrib, k, v.s))
    decreases v, 3
  {
    match v
    case XList(_) => AddAll(root, k, v, 0)
    case XDict(_) =>
      var child :- ToElement(k, v);
      Ok(root.(children := root.children + [child]))
    case XStr(s) =>
      if k == "text" then Ok(root.(text := Some(s))) else Ok(root.(attrib := Put(root.attrib, k, s)))
  }

  /** The items of `lst` from position `j` on, each a child tagged `k`. */
  function AddAll(root: Element, k: string, lst: XVal, j: nat): (r: Result<Element, EtreeError>)
    requires lst.XList? && j <= |lst.items|
    ensures r.Ok? <==> forall m | j <= m < |lst.items| :: Convertible(lst.items[m])
    ensures r.Ok? ==> && r.value.tag == root.tag && r.value.attrib == root.attrib && r.value.text == root.text
                      && |r.value.children| == |root.children| + |lst.items| - j
                      && r.value.children[..|root.children|] == root.children
                      && forall m | |root.children| <= m < |r.value.children| :: r.value.children[m].tag == k
    decreases lst, 0, |lst.items| - j
  {
    if j == |lst.items| then Ok(root)
    else
      var child :- ToElement(k, lst.items[j]);
      var r := AddAll(root.(children := root.children + [child]), k, lst, j + 1);
      assert r.Ok? ==> r.value.children[..|root.children|] == (root.children + [child])[..|root.children|];
      r
  }

  /** `dictToEtree(d)`: a dictionary of one entry is that element; any
      other is put under an element tagged `root`. */
  function FromDict(d: Dict<string, XVal>): (r: Result<Element, EtreeError>)
    ensures |d| == 1 ==> (r.Ok? <==> Convertible(d[0].1)) && (r.Ok? ==> r.value.tag == d[0].0)
    ensures |d| != 1 ==> (r.Ok? <==> Convertible(XDict(d))) && (r.Ok? ==> r.value.tag == "root")
  {
    if |d| == 1 then ToElement(d[0].0, d[0].1) else Fill(Bare("root"), XDict(d), 0)
  }

  // ---- the round trip ----

  /** Elements the two conversions bring back unchanged: names without
      namespaces; attributes with distinct names, none of them `text`;
      children with distinct tags that are neither `text` nor an
      attribute's name; text that has no surrounding whitespace and sits
      beside children or attributes; and the same of every child.  Since
      an `Element` has no tail, a source tree counts as regular only when
      no element in it has tail text, not even whitespace. */
  predicate Regular(e: Element) {
    && !StartsWith(e.tag, "{")
    && UniqueKeys(e.attrib)
    && (forall i | 0 <= i < |e.attrib| :: !StartsWith(e.attrib[i].0, "{") && e.attrib[i].0 != "text")
    && (forall i | 0 <= i < |e.children| :: e.children[i].tag != "text" && e.children[i].tag !in Keys(e.attrib))
    && (forall i, j | 0 <= i < j < |e.children| :: e.children[i].tag != e.children[j].tag)
    && (e.text.Some? ==> e.text.value != "" && Strip(e.text.value) == e.text.value && (e.children != [] || e.attrib != []))
    && (forall i | 0 <= i < |e.children| :: Regular(e.children[i]))
  }

  /** The attributes as dictionary entries. */
  function AttributeEntries(attrib: Dict<string, string>): (r: Dict<string, XVal>)
    ensures |r| == |attrib|
    ensures forall i | 0 <= i < |attrib| :: r[i] == (attrib[i].0, XStr(attrib[i].1))
  {
    seq(|attrib|, i requires 0 <= i < |attrib| => (attrib[i].0, XStr(attrib[i].1)))
  }

  /** The text as a dictionary entry, if there is text. */
  function TextEntries(text: Option<string>): Dict<string, XVal> {
    if text.Some? then [("text", XStr(text.value))] else []
  }

  /** The entries of a regular element, in the order `etreeToDict` makes
      them: children, attributes, text. */
  function RegularEntries(e: Element): Dict<string, XVal>
    requires WellNamed(e)
  {
    ChildEntries(e) + AttributeEntries(e.attrib) + TextEntries(e.text)
  }

  /** The entries each with a list of its one value. */
  function Singletons(cv: seq<(string, XVal)>): (r: Dict<string, seq<XVal>>)
    ensures |r| == |cv|
    ensures forall i | 0 <= i < |cv| :: r[i] == (cv[i].0, [cv[i].1])
  {
    seq(|cv|, i requires 0 <= i < |cv| => (cv[i].0, [cv[i].1]))
  }

  lemma GroupStep(cv: seq<(string, XVal)>)
    requires cv != []
    ensures var rest, k, v := Group(cv[..|cv| - 1]), cv[|cv| - 1].0, cv[|cv| - 1].1;
            Group(cv) == Put(rest, k, Get(rest, k).GetOr([]) + [v])
  {
  }

  /** Grouping entries with distinct keys gives each a list of one. */
  lemma {:induction false} GroupDistinct(cv: seq<(string, XVal)>)
    requires UniqueKeys(cv)
    ensures Group(cv) == Singletons(cv)
  {
    if cv != [] {
      var n := |cv| - 1;
      var prefix := cv[..n];
      assert UniqueKeys(prefix);
      var k, v := cv[n].0, cv[n].1;
      assert k !in Keys(prefix) by {
        forall j | 0 <= j < n ensures prefix[j].0 != k {
          assert cv[j].0 != cv[n].0;
        }
      }
      var rest := Group(prefix);
      assert Keys(rest) == Keys(prefix);
      assert Get(rest, k) == None;
      assert Get(rest, k).GetOr([]) + [v] == [v];
      assert Put(rest, k, [v]) == rest + [(k, [v])];
      GroupStep(cv);
      assert Group(cv) == rest + [(k, [v])];
      GroupDistinct(prefix);
      assert Singletons(prefix) + [(k, [v])] == Singletons(cv);
    }
  }

  /** Collapsing lists of one gives the entries back. */
  lemma CollapseDistinct(cv: seq<(string, XVal)>)
    requires UniqueKeys(cv)
    ensures Collapse(Group(cv)) == cv
  {
    GroupDistinct(cv);
  }

  lemma PutAttributesStep(d: Dict<string, XVal>, attrib: Dict<string, string>)
    requires attrib != [] && forall i | 0 <= i < |attrib| :: NameOk(attrib[i].0)
    ensures var n := |attrib| - 1;
            PutAttributes(d, attrib) == Put(PutAttributes(d, attrib[..n]), Local(attrib[n].0), XStr(attrib[n].1))
  {
  }

  /** Attributes with fresh, distinct, namespace-free names are appended. */
  lemma {:induction false} PutAttributesFresh(d: Dict<string, XVal>, attrib: Dict<string, string>)
    requires UniqueKeys(attrib)
    requires forall i | 0 <= i < |attrib| :: !StartsWith(attrib[i].0, "{") && attrib[i].0 !in Keys(d)
    ensures PutAttributes(d, attrib) == d + AttributeEntries(attrib)
  {
    if attrib != [] {
      var n := |attrib| - 1;
      var prefix := attrib[..n];
      assert UniqueKeys(prefix);
      var k, x := attrib[n].0, attrib[n].1;
      assert Local(k) == k;
      var before := d + AttributeEntries(prefix);
      assert k !in Keys(before) by {
        forall j | 0 <= j < |before| ensures before[j].0 != k {
          if j < |d| {
            assert d[j].0 in Keys(d);
          } else {
            assert before[j].0 == prefix[j - |d|].0 == attrib[j - |d|].0;
          }
        }
      }
      assert Put(before, k, XStr(x)) == before + [(k, XStr(x))];
      assert before + [(k, XStr(x))] == d + AttributeEntries(attrib);
      PutAttributesStep(d, attrib);
      PutAttributesFresh(d, prefix);
    }
  }

  lemma StripEmpty()
    ensures Strip("") == ""
  {
  }

  /** Text of whitespace only, no-break and other Unicode spaces included,
      counts as no text, so it never reaches the `'text'` entry. */
  lemma BlankTextDropped(e: Element)
    requires e.text.Some? && forall i | 0 <= i < |e.text.value| :: IsSpace(e.text.value[i])
    ensures TextOf(e) == ""
  {
    StripAllSpace(e.text.value);
  }

  /** A regular element's child entries have distinct keys: the tags. */
  lemma RegularChildEntries(e: Element)
    requires WellNamed(e) && Regular(e)
    ensures UniqueKeys(ChildEntries(e))
    ensures forall i | 0 <= i < |e.children| :: ChildEntries(e)[i].0 == e.children[i].tag
  {
    var cv := ChildEntries(e);
    forall i | 0 <= i < |e.children| ensures cv[i].0 == e.children[i].tag {
      assert cv[i] == ToDict(e.children[i]);
      assert Regular(e.children[i]);
    }
  }

  /** Children with distinct keys and fresh attributes give their
      entries back in order, the attributes after the children. */
  lemma EntriesFresh(cv: seq<(string, XVal)>, attrib: Dict<string, string>)
    requires UniqueKeys(cv) && UniqueKeys(attrib)
    requires forall i | 0 <= i < |attrib| :: !StartsWith(attrib[i].0, "{") && attrib[i].0 !in Keys(cv)
    ensures Entries(cv, attrib) == cv + AttributeEntries(attrib)
  {
    CollapseDistinct(cv);
    PutAttributesFresh(cv, attrib);
  }

  /** A regular element's children and attributes become entries of
      their own, in order. */
  lemma RegularEntriesFresh(e: Element)
    requires WellNamed(e) && Regular(e)
    ensures Entries(ChildEntries(e), e.attrib) == ChildEntries(e) + AttributeEntries(e.attrib)
  {
    var cv := ChildEntries(e);
    RegularChildEntries(e);
    forall i | 0 <= i < |e.attrib| ensures e.attrib[i].0 !in Keys(cv) {
      forall j | 0 <= j < |cv| ensures cv[j].0 != e.attrib[i].0 {
        assert e.attrib[i].0 in Keys(e.attrib);
        assert cv[j].0 == e.children[j].tag;
      }
    }
    EntriesFresh(cv, e.attrib);
  }

  /** No child or attribute of a regular element is named `text`. */
  lemma RegularNoText(e: Element)
    requires WellNamed(e) && Regular(e)
    ensures "text" !in Keys(ChildEntries(e) + AttributeEntries(e.attrib))
  {
    var cv := ChildEntries(e);
    RegularChildEntries(e);
    var entries := cv + AttributeEntries(e.attrib);
    forall j | 0 <= j < |entries| ensures entries[j].0 != "text" {
      if j >= |cv| {
        assert entries[j].0 == e.attrib[j - |cv|].0;
      } else {
        assert entries[j].0 == e.children[j].tag;
      }
    }
  }

  lemma ToDictUnfold(e: Element)
    requires WellNamed(e)
    ensures ToDict(e) == (Local(e.tag), Finish(Entries(ChildEntries(e), e.attrib), TextOf(e)))
  {
  }

  /** The text of a regular element goes last, under its own key. */
  lemma FinishRegular(e: Element)
    requires WellNamed(e) && Regular(e)
    ensures Finish(ChildEntries(e) + AttributeEntries(e.attrib), TextOf(e)) == XDict(RegularEntries(e))
  {
    var entries := ChildEntries(e) + AttributeEntries(e.attrib);
    StripEmpty();
    if e.text.Some? {
      assert |entries| == |e.children| + |e.attrib| > 0;
      RegularNoText(e);
      assert Put(entries, "text", XStr(e.text.value)) == entries + TextEntries(e.text);
    }
  }

  /** A regular element's dictionary holds exactly its children, its
      attributes and its text, in that order. */
  lemma ToDictRegular(e: Element)
    requires WellNamed(e) && Regular(e)
    ensures ToDict(e) == (e.tag, XDict(RegularEntries(e)))
  {
    ToDictUnfold(e);
    RegularEntriesFresh(e);
    FinishRegular(e);
  }

  /** The element part-way through being rebuilt from a regular element's
      entries: the first `i` entries added, children first, then
      attributes, then the text. */
  function Partial(e: Element, i: nat): Element {
    var nc, na := |e.children|, |e.attrib|;
    if i <= nc then Element(e.tag, [], None, e.children[..i])
    else if i <= nc + na then Element(e.tag, e.attrib[..i - nc], None, e.children)
    else e
  }

  lemma FillStep(root: Element, d: XVal, i: nat)
    requires d.XDict? && i < |d.entries|
    ensures var a := Add(root, d.entries[i].0, d.entries[i].1);
            a.Ok? ==> Fill(root, d, i) == Fill(a.value, d, i + 1)
  {
  }

  lemma AddChild(root: Element, k: string, v: XVal)
    requires v.XDict? && ToElement(k, v).Ok?
    ensures Add(root, k, v) == Ok(root.(children := root.children + [ToElement(k, v).value]))
  {
  }

  /** The number of entries of a regular element. */
  lemma RegularEntriesLength(e: Element)
    requires WellNamed(e)
    ensures |RegularEntries(e)| == |e.children| + |e.attrib| + if e.text.Some? then 1 else 0
  {
  }

  /** The entry of a child is the child's own dictionary. */
  lemma ChildEntryAt(e: Element, i: nat)
    requires WellNamed(e) && i < |e.children|
    ensures RegularEntries(e)[i] == ToDict(e.children[i])
  {
  }

  /** A child entry turns back into the child. */
  lemma {:induction false} AddChildEntry(e: Element, i: nat)
    requires WellNamed(e) && Regular(e) && i < |e.children|
    ensures var c := ToDict(e.children[i]);
            Add(Partial(e, i), c.0, c.1) == Ok(Partial(e, i + 1))
    decreases e, 0, 0, 0
  {
    var child := e.children[i];
    assert WellNamed(child) && Regular(child);
    ToDictRegular(child);
    ElementBack(child);
    var root := Partial(e, i);
    AddChild(root, child.tag, XDict(RegularEntries(child)));
    PartialChild(e, i);
  }

  /** Rebuilding a child adds it after the children before it. */
  lemma PartialChild(e: Element, i: nat)
    requires i < |e.children|
    ensures Partial(e, i + 1) == Partial(e, i).(children := Partial(e, i).children + [e.children[i]])
  {
    assert e.children[..i] + [e.children[i]] == e.children[..i + 1];
  }

  /** An attribute entry becomes the next attribute. */
  lemma AddAttributeEntry(e: Element, i: nat)
    requires WellNamed(e) && Regular(e) && |e.children| <= i < |e.children| + |e.attrib|
    ensures var entries := RegularEntries(e);
            Add(Partial(e, i), entries[i].0, entries[i].1) == Ok(Partial(e, i + 1))
  {
    var a := i - |e.children|;
    AttributeEntryAt(e, i);
    PutNextAttribute(e.attrib, a);
    var k, x := e.attrib[a].0, e.attrib[a].1;
    assert k != "text";
    var root := Partial(e, i);
    assert root == Element(e.tag, e.attrib[..a], None, e.children);
    assert Partial(e, i + 1) == root.(attrib := e.attrib[..a + 1]);
  }

  /** Past the children, the regular entries are the attributes. */
  lemma AttributeEntryAt(e: Element, i: nat)
    requires WellNamed(e) && |e.children| <= i < |e.children| + |e.attrib|
    ensures var a := i - |e.children|;
            RegularEntries(e)[i] == (e.attrib[a].0, XStr(e.attrib[a].1))
  {
    var a := i - |e.children|;
    var cv, av := ChildEntries(e), AttributeEntries(e.attrib);
    assert RegularEntries(e) == (cv + av) + TextEntries(e.text);
    assert (cv + av)[i] == av[a];
  }

  /** Putting the next attribute of a list with distinct names extends the
      prefix by that attribute. */
  lemma PutNextAttribute(attrib: Dict<string, string>, a: nat)
    requires UniqueKeys(attrib) && a < |attrib|
    ensures Put(attrib[..a], attrib[a].0, attrib[a].1) == attrib[..a + 1]
  {
    var k := attrib[a].0;
    assert k !in Keys(attrib[..a]) by {
      forall j | 0 <= j < a ensures attrib[..a][j].0 != k {
        assert attrib[j].0 != attrib[a].0;
      }
    }
    assert attrib[..a] + [(k, attrib[a].1)] == attrib[..a + 1];
  }

  /** The text entry, last, becomes the text. */
  lemma AddTextEntry(e: Element)
    requires WellNamed(e) && Regular(e) && e.text.Some?
    ensures var entries, i := RegularEntries(e), |e.children| + |e.attrib|;
            i < |entries| && Add(Partial(e, i), entries[i].0, entries[i].1) == Ok(Partial(e, i + 1))
  {
    var i := |e.children| + |e.attrib|;
    RegularEntriesLength(e);
    TextEntryAt(e);
    assert e.attrib[..|e.attrib|] == e.attrib;
    assert Partial(e, i) == e.(text := None);
  }

  /** The text entry comes after the children and the attributes. */
  lemma TextEntryAt(e: Element)
    requires WellNamed(e) && e.text.Some?
    ensures var i := |e.children| + |e.attrib|;
            i < |RegularEntries(e)| && RegularEntries(e)[i] == ("text", XStr(e.text.value))
  {
    var cv, av := ChildEntries(e), AttributeEntries(e.attrib);
    assert RegularEntries(e) == (cv + av) + TextEntries(e.text);
  }

  /** Adding the remaining entries of a regular element's dictionary to the
      part already rebuilt gives the element back. */
  lemma {:induction false} FillRegular(e: Element, i: nat)
    requires WellNamed(e) && Regular(e) && i <= |RegularEntries(e)|
    ensures Fill(Partial(e, i), XDict(RegularEntries(e)), i) == Ok(e)
    decreases e, 0, |RegularEntries(e)| - i
  {
    var entries := RegularEntries(e);
    RegularEntriesLength(e);
    if i == |entries| {
      assert Partial(e, i) == e;
    } else {
      AddNext(e, i);
      FillStep(Partial(e, i), XDict(entries), i);
      FillRegular(e, i + 1);
    }
  }

  /** Each entry of a regular element's dictionary adds the next part. */
  lemma {:induction false} AddNext(e: Element, i: nat)
    requires WellNamed(e) && Regular(e) && i < |RegularEntries(e)|
    ensures var entries := RegularEntries(e);
            Add(Partial(e, i), entries[i].0, entries[i].1) == Ok(Partial(e, i + 1))
    decreases e, 0, 0, 1
  {
    var nc, na := |e.children|, |e.attrib|;
    RegularEntriesLength(e);
    if i < nc {
      ChildEntryAt(e, i);
      AddChildEntry(e, i);
    } else if i < nc + na {
      AddAttributeEntry(e, i);
    } else {
      AddTextEntry(e);
    }
  }

  /** A regular element's dictionary turns back into the element. */
  lemma {:induction false} ElementBack(e: Element)
    requires WellNamed(e) && Regular(e)
    ensures ToElement(e.tag, XDict(RegularEntries(e))) == Ok(e)
    decreases e, 1
  {
    FillRegular(e, 0);
    assert Partial(e, 0) == Bare(e.tag);
  }

  /** `dictToEtree(etreeToDict(e))` gives back every regular element. */
  lemma RoundTrip(e: Element)
    requires WellNamed(e) && Regular(e)
    ensures FromDict([ToDict(e)]) == Ok(e)
  {
    ToDictRegular(e);
    ElementBack(e);
  }
}
