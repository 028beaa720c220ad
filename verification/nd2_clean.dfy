/** The cleaning of the nd2 reader's raw metadata dictionaries: blank
    entries are dropped, bytes are decoded, single `''`-keyed dictionaries
    are unwrapped, nested dictionaries are cleaned (and dropped when
    nothing is left), iterables become lists and empty lists are dropped
    (sources/nd2/large_image_source_nd2/__init__.py:149-177). */
module Nd2Clean {
  import opened Wrappers
  import opened Dicts

  /** The Python values the raw metadata holds. `PBytes` carries the text
      its UTF-8 decoding gives; `PIter` is a range, generator or
      `array.array`; `POther` is any other scalar (a float, a date).  A
      `numpy.ndarray` is not represented: the blank test compares it
      element by element. */
  datatype PyVal =
    | PNone
    | PStr(text: string)
    | PBytes(utf8: string)
    | PInt(number: int)
    | POther(repr: string)
    | PList(items: seq<PyVal>)
    | PIter(elements: seq<PyVal>)
    | PDict(entries: Dict<PyVal, PyVal>)

  /** `value in (None, b'', '')`. */
  predicate IsBlank(v: PyVal) {
    v == PNone || v == PBytes("") || v == PStr("")
  }

  /** `.decode('utf8')` of bytes; any other value as it is. */
  function Decode(v: PyVal): (r: PyVal)
    ensures !r.PBytes?
    ensures !v.PBytes? ==> r == v
  {
    if v.PBytes? then PStr(v.utf8) else v
  }

  /** A dictionary of one entry under `''` or `b''`. */
  predicate IsWrapper(v: PyVal) {
    v.PDict? && |v.entries| == 1 && (v.entries[0].0 == PBytes("") || v.entries[0].0 == PStr(""))
  }

  // ---- cleaning ----

  /** One list element: bytes decoded, a dictionary cleaned (and kept
      even when empty), anything else as it is. */
  function CleanItem(e: PyVal): PyVal
    decreases e, 2
  {
    if e.PBytes? then PStr(e.utf8)
    else if e.PDict? then CleanDict(e)
    else e
  }

  /** The cleaned value of one entry, or `None` when the entry is
      dropped. */
  function CleanValue(v: PyVal): (r: Option<PyVal>)
    ensures r.Some? ==> !r.value.PBytes? && !r.value.PIter?
    ensures r.Some? && r.value.PList? ==> |r.value.items| > 0
    ensures r.Some? && r.value.PDict? ==> |r.value.entries| > 0
    ensures IsBlank(v) ==> r.None?
    decreases v, 3
  {
    if IsBlank(v) then None
    else
      var unwrapped := if IsWrapper(v) then v.entries[0].1 else v;
      var decoded := Decode(unwrapped);
      if decoded.PDict? then
        var c := CleanDict(decoded);
        if |c.entries| == 0 then None else Some(c)
      else
        var listed := if decoded.PIter? then PList(decoded.elements) else decoded;
        if listed.PList? then
          if |listed.items| == 0 then None
          else Some(PList(seq(|listed.items|, i requires 0 <= i < |listed.items| => CleanItem(listed.items[i]))))
        else Some(listed)
  }

  /** `_getND2MetadataCleanDict`. */
  function CleanDict(d: PyVal): (r: PyVal)
    requires d.PDict?
    ensures r.PDict?
    decreases d, 1
  {
    PDict(CleanPrefix(d, |d.entries|))
  }

  /** The cleaned dictionary after the first `n` entries. */
  function CleanPrefix(d: PyVal, n: nat): (r: Dict<PyVal, PyVal>)
    requires d.PDict? && n <= |d.entries|
    ensures UniqueKeys(r)
    decreases d, 0, n
  {
    if n == 0 then []
    else
      var (key, value) := d.entries[n - 1];
      var acc := CleanPrefix(d, n - 1);
      match CleanValue(value)
      case None => acc
      case Some(v) => Put(acc, Decode(key), v)
  }

  // ---- what cleaning keeps ----

  /** Entry `i` survives cleaning. */
  predicate KeptAt(d: PyVal, i: nat)
    requires d.PDict? && i < |d.entries|
  {
    CleanValue(d.entries[i].1).Some?
  }

  /** The decoded keys of the surviving entries among the first `n`. */
  function KeptKeys(d: PyVal, n: nat): set<PyVal>
    requires d.PDict? && n <= |d.entries|
  {
    set i | 0 <= i < n && KeptAt(d, i) :: Decode(d.entries[i].0)
  }

  /** The cleaned dictionary has exactly the decoded keys of the entries
      that survive, none of them bytes, each once. */
  lemma {:induction false} CleanPrefixKeys(d: PyVal, n: nat)
    requires d.PDict? && n <= |d.entries|
    ensures Keys(CleanPrefix(d, n)) == KeptKeys(d, n)
    ensures forall k | k in Keys(CleanPrefix(d, n)) :: !k.PBytes?
    decreases n
  {
    if n == 0 {
      CleanPrefixKeysEmpty(d);
    } else {
      CleanPrefixKeys(d, n - 1);
      CleanPrefixKeysStep(d, n);
    }
    KeptKeysDecoded(d, n);
  }

  /** Before any entry both key sets are empty. */
  lemma CleanPrefixKeysEmpty(d: PyVal)
    requires d.PDict?
    ensures Keys(CleanPrefix(d, 0)) == KeptKeys(d, 0) == {}
  {
  }

  /** One more entry keeps the keys of the cleaned dictionary in step with
      the surviving keys. */
  lemma CleanPrefixKeysStep(d: PyVal, n: nat)
    requires d.PDict? && 0 < n <= |d.entries|
    requires Keys(CleanPrefix(d, n - 1)) == KeptKeys(d, n - 1)
    ensures Keys(CleanPrefix(d, n)) == KeptKeys(d, n)
  {
    CleanPrefixStep(d, n);
    KeptKeysStep(d, n);
  }

  /** The surviving keys are decoded, so none is bytes. */
  lemma KeptKeysDecoded(d: PyVal, n: nat)
    requires d.PDict? && n <= |d.entries|
    ensures forall k | k in KeptKeys(d, n) :: !k.PBytes?
  {
  }

  /** Entry `n - 1` is put into the cleaned dictionary when it survives
      and skipped otherwise. */
  lemma CleanPrefixStep(d: PyVal, n: nat)
    requires d.PDict? && 0 < n <= |d.entries|
    ensures CleanPrefix(d, n)
            == if KeptAt(d, n - 1)
               then Put(CleanPrefix(d, n - 1), Decode(d.entries[n - 1].0), CleanValue(d.entries[n - 1].1).value)
               else CleanPrefix(d, n - 1)
  {
  }

  /** Adding entry `n - 1` adds its decoded key when it survives. */
  lemma KeptKeysStep(d: PyVal, n: nat)
    requires d.PDict? && 0 < n <= |d.entries|
    ensures KeptKeys(d, n) == KeptKeys(d, n - 1) + (if KeptAt(d, n - 1) then {Decode(d.entries[n - 1].0)} else {})
  {
    var before := KeptKeys(d, n - 1);
    var added: set<PyVal> := if KeptAt(d, n - 1) then {Decode(d.entries[n - 1].0)} else {};
    forall k | k in KeptKeys(d, n) ensures k in before + added {
      var i :| 0 <= i < n && KeptAt(d, i) && Decode(d.entries[i].0) == k;
      if i < n - 1 { assert k in before; }
    }
  }

  /** When several entries decode to the same key, the last surviving
      one gives the value. */
  lemma {:induction false} CleanPrefixLastWins(d: PyVal, n: nat, i: nat)
    requires d.PDict? && i < n <= |d.entries| && KeptAt(d, i)
    requires forall j | i < j < n && KeptAt(d, j) :: Decode(d.entries[j].0) != Decode(d.entries[i].0)
    ensures Get(CleanPrefix(d, n), Decode(d.entries[i].0)) == Some(CleanValue(d.entries[i].1).value)
    decreases n
  {
    CleanPrefixStep(d, n);
    if i < n - 1 {
      CleanPrefixLastWins(d, n - 1, i);
    }
  }

  /** The cleaned dictionary: its keys are the decoded keys of the
      surviving entries, each once and none of them bytes, and each holds
      the cleaned value of the last surviving entry that decodes to it. */
  lemma CleanDictKeys(d: PyVal)
    requires d.PDict?
    ensures Keys(CleanDict(d).entries) == KeptKeys(d, |d.entries|)
    ensures UniqueKeys(CleanDict(d).entries)
    ensures forall k | k in Keys(CleanDict(d).entries) :: !k.PBytes?
    ensures forall i | 0 <= i < |d.entries| && KeptAt(d, i)
              && (forall j | i < j < |d.entries| && KeptAt(d, j) :: Decode(d.entries[j].0) != Decode(d.entries[i].0))
              :: Get(CleanDict(d).entries, Decode(d.entries[i].0)) == Some(CleanValue(d.entries[i].1).value)
  {
    CleanPrefixKeys(d, |d.entries|);
    forall i | 0 <= i < |d.entries| && KeptAt(d, i)
      && (forall j | i < j < |d.entries| && KeptAt(d, j) :: Decode(d.entries[j].0) != Decode(d.entries[i].0))
      ensures Get(CleanDict(d).entries, Decode(d.entries[i].0)) == Some(CleanValue(d.entries[i].1).value)
    {
      CleanPrefixLastWins(d, |d.entries|, i);
    }
  }

  // ---- values cleaning leaves alone ----

  /** A value cleaning keeps unchanged: not blank, not a `''` wrapper,
      not bytes nor an iterable, a non-empty list whose elements are
      themselves clean, or a non-empty clean dictionary. */
  predicate CleanShape(v: PyVal)
    decreases v, 2
  {
    !IsBlank(v) && !IsWrapper(v) && !v.PBytes? && !v.PIter?
    && (v.PList? ==> |v.items| > 0 && forall i | 0 <= i < |v.items| :: CleanElement(v.items[i]))
    && (v.PDict? ==> |v.entries| > 0 && CleanDictShape(v))
  }

  /** A list element cleaning keeps unchanged. */
  predicate CleanElement(e: PyVal)
    decreases e, 1
  {
    !e.PBytes? && (e.PDict? ==> CleanDictShape(e))
  }

  /** A dictionary cleaning keeps unchanged: distinct keys, none of them
      bytes, and every value clean. */
  predicate CleanDictShape(d: PyVal)
    decreases d, 0
  {
    d.PDict? && UniqueKeys(d.entries)
    && forall i | 0 <= i < |d.entries| :: !d.entries[i].0.PBytes? && CleanShape(d.entries[i].1)
  }

  /** Cleaning leaves a clean value as it is. */
  lemma {:induction false} CleanValueOfClean(v: PyVal)
    requires CleanShape(v)
    ensures CleanValue(v) == Some(v)
    decreases v, 2
  {
    if v.PDict? {
      CleanDictOfClean(v);
    } else if v.PList? {
      forall i | 0 <= i < |v.items| ensures CleanItem(v.items[i]) == v.items[i] {
        CleanItemOfClean(v.items[i]);
      }
      assert seq(|v.items|, i requires 0 <= i < |v.items| => CleanItem(v.items[i])) == v.items;
    }
  }

  /** Cleaning leaves a clean list element as it is. */
  lemma {:induction false} CleanItemOfClean(e: PyVal)
    requires CleanElement(e)
    ensures CleanItem(e) == e
    decreases e, 1
  {
    if e.PDict? {
      CleanDictOfClean(e);
    }
  }

  /** Cleaning leaves a clean dictionary as it is. */
  lemma {:induction false} CleanDictOfClean(d: PyVal)
    requires CleanDictShape(d)
    ensures CleanDict(d) == d
    decreases d, 0
  {
    CleanPrefixOfClean(d, |d.entries|);
    assert d.entries[..|d.entries|] == d.entries;
  }

  /** The first `n` entries of a clean dictionary clean to themselves. */
  lemma {:induction false} CleanPrefixOfClean(d: PyVal, n: nat)
    requires CleanDictShape(d) && n <= |d.entries|
    ensures CleanPrefix(d, n) == d.entries[..n]
    decreases d, 0, n
  {
    if n > 0 {
      CleanPrefixOfClean(d, n - 1);
      var (key, value) := d.entries[n - 1];
      CleanValueOfClean(value);
      var acc := d.entries[..n - 1];
      assert forall i | 0 <= i < |acc| :: acc[i].0 != key;
      assert key !in Keys(acc);
      assert acc + [(key, value)] == d.entries[..n];
    }
  }

  /** The unwrapped value of a `''` wrapper is not examined again: a
      wrapped blank string is kept, and a wrapper of a wrapper comes out
      as a wrapper, so cleaning twice differs from cleaning once. */
  lemma UnwrappedValueNotRechecked()
    ensures CleanValue(PDict([(PStr(""), PStr(""))])) == Some(PStr(""))
    ensures var inner := PDict([(PStr(""), PStr("x"))]);
            CleanValue(PDict([(PBytes(""), inner)])) == Some(inner)
            && CleanValue(inner) == Some(PStr("x"))
  {
    var inner := PDict([(PStr(""), PStr("x"))]);
    CleanInner();
    assert IsWrapper(PDict([(PBytes(""), inner)]));
    assert !IsWrapper(inner.entries[0].1);
  }

  /** The inner wrapper cleans to itself. */
  lemma CleanInner()
    ensures CleanDict(PDict([(PStr(""), PStr("x"))])) == PDict([(PStr(""), PStr("x"))])
  {
    var inner := PDict([(PStr(""), PStr("x"))]);
    assert CleanValue(PStr("x")) == Some(PStr("x"));
    assert CleanPrefix(inner, 0) == [];
    assert PStr("") !in Keys<PyVal, PyVal>([]);
    assert CleanPrefix(inner, 1) == Put([], PStr(""), PStr("x"));
  }
}
