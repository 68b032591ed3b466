/**
 * What a configuration file holds once it is written: the file is the text
 * `JSON.stringify(config, null, 2)` between a prefix and a suffix, and its
 * loader yields the value `JSON.parse` gives back for that text. Below the
 * top level, `JSON.stringify` drops an object key whose value is
 * `undefined` and writes an `undefined` array element as `null`; a module
 * namespace object is written as the plain object of its exports.
 */
module JsonText {
  import opened Js

  /** How an array element comes back: `undefined` is written as `null`. */
  function ElementBack(x: Value): Value
  {
    if x.Undefined? then Null else x
  }

  /**
   * The entries of an object that `JSON.stringify` writes: those whose key
   * has not occurred before (an association list whose key occurs again
   * denotes its first entry) and whose value is not `undefined`.
   */
  function Visible(props: seq<(string, Value)>, seen: set<string>): (r: seq<(string, Value)>)
    decreases |props|
  {
    if props == [] then []
    else
      var rest := Visible(props[1..], seen + {props[0].0});
      if props[0].0 in seen || props[0].1.Undefined? then rest else [props[0]] + rest
  }

  /** `JSON.parse(JSON.stringify(v))`, with `undefined` at the top level standing for the text `undefined`. */
  function Reparsed(v: Value): (r: Value)
    ensures r.Undefined? <==> v.Undefined?
    ensures r.Arr? <==> v.Arr?
    ensures r.Obj? <==> v.Obj? || v.Namespace?
    ensures !r.Namespace?
    ensures Truthy(r) == Truthy(v)
    ensures !v.Arr? && !v.Obj? && !v.Namespace? ==> r == v
    decreases v
  {
    match v
    case Arr(elems) =>
      Arr(seq(|elems|, i requires 0 <= i < |elems| => ElementBack(Reparsed(elems[i]))))
    case Obj(props) =>
      Obj(Visible(seq(|props|, i requires 0 <= i < |props| => (props[i].0, Reparsed(props[i].1))), {}))
    case Namespace(exports) =>
      Obj(Visible(seq(|exports|, i requires 0 <= i < |exports| => (exports[i].0, Reparsed(exports[i].1))), {}))
    case _ => v
  }

  /**
   * A value `JSON.parse` can produce: no `undefined` and no module namespace
   * inside, and no key twice in an object. Only the top level may be
   * `undefined`.
   */
  predicate JsonValue(v: Value)
    decreases v
  {
    match v
    case Arr(elems) => forall i :: 0 <= i < |elems| ==> !elems[i].Undefined? && JsonValue(elems[i])
    case Obj(props) =>
      DistinctKeys(props) && forall i :: 0 <= i < |props| ==> !props[i].1.Undefined? && JsonValue(props[i].1)
    case Namespace(_) => false
    case _ => true
  }

  /** The entries kept are entries of `props`, with a value that is not `undefined` and a key not seen. */
  lemma {:induction false} VisibleEntries(props: seq<(string, Value)>, seen: set<string>)
    ensures var r := Visible(props, seen);
      (forall j :: 0 <= j < |r| ==> r[j] in props && !r[j].1.Undefined? && r[j].0 !in seen) &&
      DistinctKeys(r)
    decreases |props|
  {
    if props != [] {
      VisibleEntries(props[1..], seen + {props[0].0});
    }
  }

  /** A key already seen is not kept. */
  lemma {:induction false} VisibleHides(props: seq<(string, Value)>, seen: set<string>, k: string)
    requires k in seen
    ensures Lookup(Visible(props, seen), k) == Undefined
  {
    VisibleEntries(props, seen);
    var r := Visible(props, seen);
    assert forall j :: 0 <= j < |r| ==> r[j].0 != k;
    IndexOfAbsent(r, k);
  }

  /** A key not seen reads as it did: its first entry, dropped only when that is `undefined`. */
  lemma {:induction false} VisibleLookup(props: seq<(string, Value)>, seen: set<string>, k: string)
    requires k !in seen
    ensures Lookup(Visible(props, seen), k) == Lookup(props, k)
    decreases |props|
  {
    if props != [] {
      var seen' := seen + {props[0].0};
      if props[0].0 == k {
        VisibleHides(props[1..], seen', k);
      } else {
        VisibleLookup(props[1..], seen', k);
        assert Lookup(props, k) == Lookup(props[1..], k) by {
          LookupPastHead(props, k);
        }
        var rest := Visible(props[1..], seen');
        if !(props[0].0 in seen || props[0].1.Undefined?) {
          assert ([props[0]] + rest)[1..] == rest;
          LookupPastHead([props[0]] + rest, k);
        }
      }
    }
  }

  lemma LookupPastHead(props: seq<(string, Value)>, k: string)
    requires props != [] && props[0].0 != k
    ensures Lookup(props, k) == Lookup(props[1..], k)
  {
  }

  /** Entries with distinct new keys and defined values are all kept. */
  lemma {:induction false} VisibleKeepsAll(props: seq<(string, Value)>, seen: set<string>)
    requires DistinctKeys(props)
    requires forall j :: 0 <= j < |props| ==> !props[j].1.Undefined? && props[j].0 !in seen
    ensures Visible(props, seen) == props
    decreases |props|
  {
    if props != [] {
      VisibleKeepsAll(props[1..], seen + {props[0].0});
    }
  }

  /** A module namespace is written as the plain object of its exports. */
  lemma ReparsedNamespace(exports: seq<(string, Value)>)
    ensures Reparsed(Namespace(exports)) == Reparsed(Obj(exports))
  {
  }

  /** Reading one key of a written object gives that key's value, written. */
  lemma ReparsedLookup(props: seq<(string, Value)>, k: string)
    ensures Reparsed(Obj(props)).Obj?
    ensures Lookup(Reparsed(Obj(props)).props, k) == Reparsed(Lookup(props, k))
  {
    var mapped := seq(|props|, i requires 0 <= i < |props| => (props[i].0, Reparsed(props[i].1)));
    VisibleLookup(mapped, {}, k);
    SameKeysSameIndex(props, mapped, k);
  }

  lemma {:induction false} SameKeysSameIndex(a: seq<(string, Value)>, b: seq<(string, Value)>, k: string)
    requires |a| == |b|
    requires forall i :: 0 <= i < |a| ==> a[i].0 == b[i].0
    ensures IndexOf(a, k) == IndexOf(b, k)
  {
    if a != [] {
      SameKeysSameIndex(a[1..], b[1..], k);
    }
  }

  /** A string is written as itself inside an array, and nothing else is written as that string. */
  lemma ReparsedElementString(elems: seq<Value>, s: string)
    ensures Str(s) in Reparsed(Arr(elems)).elems <==> Str(s) in elems
  {
    var back := Reparsed(Arr(elems)).elems;
    assert forall i :: 0 <= i < |elems| ==> (back[i] == Str(s) <==> elems[i] == Str(s));
    if Str(s) in elems {
      var i :| 0 <= i < |elems| && elems[i] == Str(s);
      assert back[i] == Str(s);
    }
  }

  /** What is written is a JSON value. */
  lemma {:induction false} ReparsedIsJson(v: Value)
    ensures JsonValue(Reparsed(v))
    decreases v
  {
    match v
    case Arr(elems) =>
      forall i | 0 <= i < |elems|
        ensures JsonValue(ElementBack(Reparsed(elems[i])))
      {
        ReparsedIsJson(elems[i]);
      }
    case Obj(props) =>
      var mapped := seq(|props|, i requires 0 <= i < |props| => (props[i].0, Reparsed(props[i].1)));
      forall i | 0 <= i < |props|
        ensures JsonValue(mapped[i].1)
      {
        ReparsedIsJson(props[i].1);
      }
      VisibleEntries(mapped, {});
    case Namespace(exports) =>
      var mapped := seq(|exports|, i requires 0 <= i < |exports| => (exports[i].0, Reparsed(exports[i].1)));
      forall i | 0 <= i < |exports|
        ensures JsonValue(mapped[i].1)
      {
        ReparsedIsJson(exports[i].1);
      }
      VisibleEntries(mapped, {});
    case _ =>
  }

  /** A JSON value is written as itself. */
  lemma {:induction false} JsonReparsedUnchanged(v: Value)
    requires JsonValue(v)
    ensures Reparsed(v) == v
    decreases v
  {
    match v
    case Arr(elems) =>
      forall i | 0 <= i < |elems|
        ensures ElementBack(Reparsed(elems[i])) == elems[i]
      {
        JsonReparsedUnchanged(elems[i]);
      }
    case Obj(props) =>
      var mapped := seq(|props|, i requires 0 <= i < |props| => (props[i].0, Reparsed(props[i].1)));
      forall i | 0 <= i < |props|
        ensures mapped[i] == props[i]
      {
        JsonReparsedUnchanged(props[i].1);
      }
      assert mapped == props;
      VisibleKeepsAll(props, {});
    case _ =>
  }

  /** Writing the text a file was read back from writes that text again. */
  lemma ReparsedIdempotent(v: Value)
    ensures Reparsed(Reparsed(v)) == Reparsed(v)
  {
    ReparsedIsJson(v);
    JsonReparsedUnchanged(Reparsed(v));
  }

  /** A key set to a JSON value on a JSON object keeps the object a JSON value. */
  lemma PutJson(props: seq<(string, Value)>, k: string, x: Value)
    requires JsonValue(Obj(props)) && JsonValue(x) && !x.Undefined?
    ensures JsonValue(Obj(Put(props, k, x)))
  {
    var r := Put(props, k, x);
    var i := IndexOf(props, k);
    assert r == if i < 0 then props + [(k, x)] else props[i := (k, x)];
    forall j | 0 <= j < |r|
      ensures !r[j].1.Undefined? && JsonValue(r[j].1)
    {
      if j < |props| && j != i {
        assert r[j] == props[j];
      }
    }
  }
}
