/**
 * The JavaScript values a configuration decodes to, and the two property
 * operations the configuration code performs on them. Objects are ordered
 * association lists, kept in insertion order as JavaScript keeps ordinary
 * string keys; `Undefined` is what reading a missing property yields.
 * Numbers are integers (every number this code writes or tests is one).
 */
module Js {
  import opened Paths

  datatype Value =
    | Undefined
    | Null
    | Bool(b: bool)
    | Num(n: int)
    | Str(s: string)
    | Arr(elems: seq<Value>)
    | Obj(props: seq<(string, Value)>)
    | Namespace(exports: seq<(string, Value)>)  // an ECMAScript module's namespace object: its exports, sorted by name

  /** The exceptions the configuration code can raise. */
  datatype Error =
    | TypeError              // property read on null/undefined, or property write on a primitive (strict mode)
    | Unsupported(path: Path) // "Unsupported ESLint configuration format"
    | NoSuchFile(path: Path)  // reading a file that does not exist
    | LoadFailed(path: Path)  // the JSON parser or the module loader rejected the file

  datatype Option<+T> = None | Some(value: T)

  /** A completed computation or the exception it raised. */
  datatype Result<+T> = Success(value: T) | Failure(error: Error) {
    predicate IsFailure() { Failure? }
    function PropagateFailure<U>(): Result<U>
      requires Failure?
    {
      Failure(error)
    }
    function Extract(): T
      requires Success?
    {
      value
    }
  }

  /** JavaScript truthiness, as used by `!cfg.files`, `!x.rules` and `!packageJson.eslintConfig`. */
  predicate Truthy(v: Value)
  {
    match v
    case Undefined => false
    case Null => false
    case Bool(b) => b
    case Num(n) => n != 0
    case Str(s) => s != ""
    case Arr(_) => true
    case Obj(_) => true
    case Namespace(_) => true
  }

  /**
   * Arrays and plain objects: the values that accept new properties (a
   * module namespace object is not extensible and its exports are read-only).
   */
  predicate IsObjectLike(v: Value)
  {
    v.Arr? || v.Obj?
  }

  /** The values whose properties are an association list: plain objects and module namespaces. */
  predicate HasProps(v: Value)
  {
    v.Obj? || v.Namespace?
  }

  /** A plain object's entries, or a namespace's exports. */
  function PropsOf(v: Value): seq<(string, Value)>
    requires HasProps(v)
  {
    if v.Obj? then v.props else v.exports
  }

  function Keys(props: seq<(string, Value)>): (ks: seq<string>)
    ensures |ks| == |props|
    ensures forall i :: 0 <= i < |props| ==> ks[i] == props[i].0
  {
    if props == [] then [] else [props[0].0] + Keys(props[1..])
  }

  /** The association-list invariant: no key occurs twice. */
  predicate DistinctKeys(props: seq<(string, Value)>)
  {
    forall i, j :: 0 <= i < j < |props| ==> props[i].0 != props[j].0
  }

  /** Position of the first entry with key `key`, or -1. */
  function IndexOf(props: seq<(string, Value)>, key: string): (i: int)
    ensures -1 <= i < |props|
    ensures i >= 0 ==> props[i].0 == key
    ensures forall j :: 0 <= j < |props| && (i < 0 || j < i) ==> props[j].0 != key
  {
    if props == [] then -1
    else if props[0].0 == key then 0
    else
      var rest := IndexOf(props[1..], key);
      if rest < 0 then -1 else rest + 1
  }

  /** `o[key]` on a plain object; `Undefined` when the key is absent. */
  function Lookup(props: seq<(string, Value)>, key: string): (v: Value)
    ensures key !in Keys(props) ==> v == Undefined
    ensures forall i :: 0 <= i < |props| && props[i].0 == key && DistinctKeys(props) ==> v == props[i].1
  {
    var i := IndexOf(props, key);
    if i < 0 then Undefined else props[i].1
  }

  /**
   * `o[key] = v` on a plain object: an existing key keeps its position and
   * takes the new value, a new key is appended.
   */
  function Put(props: seq<(string, Value)>, key: string, v: Value): (r: seq<(string, Value)>)
    ensures Lookup(r, key) == v
    ensures forall k :: k != key ==> Lookup(r, k) == Lookup(props, k)
    ensures key in Keys(props) ==> Keys(r) == Keys(props)
    ensures key !in Keys(props) ==> Keys(r) == Keys(props) + [key]
    ensures forall i :: 0 <= i < |props| && i != IndexOf(props, key) ==> r[i] == props[i]
    ensures DistinctKeys(props) ==> DistinctKeys(r)
  {
    var r := if IndexOf(props, key) < 0 then props + [(key, v)] else props[IndexOf(props, key) := (key, v)];
    PutFacts(props, key, v, r);
    PutKeysFacts(props, key, v, r);
    r
  }

  lemma PutKeysFacts(props: seq<(string, Value)>, key: string, v: Value, r: seq<(string, Value)>)
    requires r == if IndexOf(props, key) < 0 then props + [(key, v)] else props[IndexOf(props, key) := (key, v)]
    ensures key in Keys(props) ==> Keys(r) == Keys(props)
    ensures key !in Keys(props) ==> Keys(r) == Keys(props) + [key]
    ensures forall i :: 0 <= i < |props| && i != IndexOf(props, key) ==> r[i] == props[i]
    ensures DistinctKeys(props) ==> DistinctKeys(r)
  {
    var i := IndexOf(props, key);
    if i < 0 {
      assert key !in Keys(props);
      assert Keys(r) == Keys(props) + [key];
    } else {
      assert Keys(props)[i] == key;
      assert Keys(r) == Keys(props);
    }
  }

  lemma PutFacts(props: seq<(string, Value)>, key: string, v: Value, r: seq<(string, Value)>)
    requires r == if IndexOf(props, key) < 0 then props + [(key, v)] else props[IndexOf(props, key) := (key, v)]
    ensures Lookup(r, key) == v
    ensures forall k :: k != key ==> Lookup(r, k) == Lookup(props, k)
  {
    IndexOfAfterPut(props, key, v, r);
    forall k | k != key
      ensures Lookup(r, k) == Lookup(props, k)
    {
      IndexOfOtherKey(props, key, v, r, k);
    }
  }

  lemma IndexOfAfterPut(props: seq<(string, Value)>, key: string, v: Value, r: seq<(string, Value)>)
    requires r == if IndexOf(props, key) < 0 then props + [(key, v)] else props[IndexOf(props, key) := (key, v)]
    ensures IndexOf(r, key) == if IndexOf(props, key) < 0 then |props| else IndexOf(props, key)
  {
    var i := IndexOf(props, key);
    var n := if i < 0 then |props| else i;
    assert r[n].0 == key;
    IndexOfFirst(r, key, n);
  }

  lemma IndexOfOtherKey(props: seq<(string, Value)>, key: string, v: Value, r: seq<(string, Value)>, k: string)
    requires k != key
    requires r == if IndexOf(props, key) < 0 then props + [(key, v)] else props[IndexOf(props, key) := (key, v)]
    ensures Lookup(r, k) == Lookup(props, k)
  {
    var j := IndexOf(props, k);
    if j >= 0 {
      assert r[j] == props[j];
      IndexOfFirst(r, k, j);
    } else {
      assert forall m :: 0 <= m < |r| ==> r[m].0 != k;
      IndexOfAbsent(r, k);
    }
  }

  /** The first position holding `key` is what `IndexOf` finds. */
  lemma {:induction false} IndexOfFirst(props: seq<(string, Value)>, key: string, n: nat)
    requires n < |props| && props[n].0 == key
    requires forall j :: 0 <= j < n ==> props[j].0 != key
    ensures IndexOf(props, key) == n
  {
    if n > 0 {
      IndexOfFirst(props[1..], key, n - 1);
    }
  }

  lemma IndexOfAbsent(props: seq<(string, Value)>, key: string)
    requires forall j :: 0 <= j < |props| ==> props[j].0 != key
    ensures IndexOf(props, key) == -1
  {
  }

  /** Setting a key twice to the same value is setting it once. */
  lemma PutIdempotent(props: seq<(string, Value)>, key: string, v: Value)
    ensures Put(Put(props, key, v), key, v) == Put(props, key, v)
  {
    var r := Put(props, key, v);
    IndexOfAfterPut(props, key, v, r);
    var i := IndexOf(r, key);
    assert r[i := (key, v)] == r;
  }

  /** A later write to the same key replaces an earlier one. */
  lemma PutOverwrites(props: seq<(string, Value)>, key: string, v: Value, w: Value)
    ensures Put(Put(props, key, v), key, w) == Put(props, key, w)
  {
    if IndexOf(props, key) < 0 {
      PutOverwritesNew(props, key, v, w);
    } else {
      PutOverwritesExisting(props, key, v, w);
    }
  }

  lemma PutOverwritesNew(props: seq<(string, Value)>, key: string, v: Value, w: Value)
    requires IndexOf(props, key) < 0
    ensures Put(Put(props, key, v), key, w) == props + [(key, w)]
  {
    var r := props + [(key, v)];
    IndexOfAfterPut(props, key, v, r);
    assert r[|props| := (key, w)] == props + [(key, w)];
  }

  lemma PutOverwritesExisting(props: seq<(string, Value)>, key: string, v: Value, w: Value)
    requires IndexOf(props, key) >= 0
    ensures Put(Put(props, key, v), key, w) == props[IndexOf(props, key) := (key, w)]
  {
    var i := IndexOf(props, key);
    var r := props[i := (key, v)];
    assert Put(props, key, v) == r;
    IndexOfAfterPut(props, key, v, r);
    assert Put(r, key, w) == r[i := (key, w)];
    UpdateTwice(props, i, (key, v), (key, w));
  }

  lemma UpdateTwice(props: seq<(string, Value)>, i: nat, a: (string, Value), b: (string, Value))
    requires i < |props|
    ensures props[i := a][i := b] == props[i := b]
  {
  }

  /** Writing back the value a key already holds changes nothing. */
  lemma PutSameValue(props: seq<(string, Value)>, key: string)
    requires key in Keys(props)
    ensures Put(props, key, Lookup(props, key)) == props
  {
    var k :| 0 <= k < |props| && Keys(props)[k] == key;
    assert props[k].0 == key;
    var i := IndexOf(props, key);
    assert props[i := (key, props[i].1)] == props;
  }

  /**
   * Reading `v.key` for a key that names no built-in property (`default`,
   * `files`, `rules`, `eslintConfig`): throws on null and undefined, finds
   * the key on a plain object and the export of that name on a module
   * namespace, and is `undefined` on every other value.
   */
  function GetProp(v: Value, key: string): (r: Result<Value>)
    ensures r.Failure? <==> v.Undefined? || v.Null?
    ensures r.Failure? ==> r.error == TypeError
    ensures HasProps(v) ==> r == Success(Lookup(PropsOf(v), key))
    ensures !HasProps(v) && r.Success? ==> r.value == Undefined
  {
    match v
    case Undefined => Failure(TypeError)
    case Null => Failure(TypeError)
    case Obj(props) => Success(Lookup(props, key))
    case Namespace(exports) => Success(Lookup(exports, key))
    case _ => Success(Undefined)
  }

  /**
   * Assigning `v.key = x` in strict-mode code: a plain object gains or
   * updates the key; an array takes it as a named property, which is not part
   * of its JSON form, so its value is unchanged; every other value, a module
   * namespace included, throws.
   */
  function SetProp(v: Value, key: string, x: Value): (r: Result<Value>)
    ensures r.Failure? <==> !IsObjectLike(v)
    ensures r.Failure? ==> r.error == TypeError
    ensures v.Obj? ==> r == Success(Obj(Put(v.props, key, x)))
    ensures v.Arr? ==> r == Success(v)
  {
    match v
    case Obj(props) => Success(Obj(Put(props, key, x)))
    case Arr(_) => Success(v)
    case _ => Failure(TypeError)
  }

  /**
   * The value `v` once the object its property `key` refers to has been
   * changed in place into `x`: no assignment to `v` takes place, so a module
   * namespace, whose export binding still refers to the changed object,
   * shows the change as well as a plain object does. Any other value has no
   * such property to see it through.
   */
  function Rebind(v: Value, key: string, x: Value): (r: Value)
    ensures HasProps(v) ==> HasProps(r) && r.Obj? == v.Obj? && PropsOf(r) == Put(PropsOf(v), key, x)
    ensures !HasProps(v) ==> r == v
  {
    match v
    case Obj(props) => Obj(Put(props, key, x))
    case Namespace(exports) => Namespace(Put(exports, key, x))
    case _ => v
  }

  /** Seeing an object through a property that already refers to it changes nothing. */
  lemma RebindSameValue(v: Value, key: string)
    requires HasProps(v) && key in Keys(PropsOf(v))
    ensures Rebind(v, key, Lookup(PropsOf(v), key)) == v
  {
    PutSameValue(PropsOf(v), key);
  }
}
