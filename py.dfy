/** The part of Python's runtime that the preprocessors rely on: the exceptions they can
    raise, the dynamically typed values found in notebook metadata with Python's truthiness
    and `or`, and insertion-ordered dictionaries (used for `resources['outputs']`). */
module Py {

  datatype Option<+T> = None | Some(value: T)

  /** The exceptions the two revisions can raise. */
  datatype Error =
    | KeyError(key: string)           // `d[key]` on a dictionary without `key`
    | TypeError                       // `name + '.ipynb'` or `os.path.join` given a non-string
    | FileNotFoundError(path: string) // `os.path.getmtime` on a missing file
    | AttributeError                  // `.get` called on a metadata value that is not a dict
    | ValueError                      // `re.findall` given flags with a compiled pattern

  datatype Result<+T> = Ok(value: T) | Err(error: Error)

  /** A metadata value: the JSON-like values a notebook's metadata holds. */
  datatype Value =
    | VNone
    | VBool(b: bool)
    | VInt(i: int)
    | VFloat(x: real)
    | VStr(s: string)
    | VList(items: seq<Value>)
    | VDict(d: map<string, Value>)

  /** Python's truth value of `v`: `None`, `False`, zero, and empty containers are false. */
  predicate Truthy(v: Value) {
    match v
    case VNone => false
    case VBool(b) => b
    case VInt(i) => i != 0
    case VFloat(x) => x != 0.0
    case VStr(s) => |s| > 0
    case VList(items) => |items| > 0
    case VDict(d) => |d| > 0
  }

  /** Python's `a or b`: `a` when it is truthy, else `b`. */
  function Or(a: Value, b: Value): (r: Value)
    ensures Truthy(a) ==> r == a
    ensures !Truthy(a) ==> r == b
    ensures Truthy(r) <==> Truthy(a) || Truthy(b)
  {
    if Truthy(a) then a else b
  }

  /** Python's `d.get(key)`: the value, or `None` when the key is absent. */
  function Get(d: map<string, Value>, key: string): (r: Value)
    ensures key in d ==> r == d[key]
    ensures key !in d ==> r == VNone
  {
    if key in d then d[key] else VNone
  }

  // Small sequence facts Dafny proves unaided. Each is stated once as a lemma so that the
  // larger proofs can call it instead of deriving the step inside a big context.

  /** Splitting off the head of the left operand of a concatenation. */
  lemma {:induction false} ConsAppend<T>(a: seq<T>, b: seq<T>)
    requires |a| > 0
    ensures a + b == [a[0]] + (a[1..] + b)
  {
    assert a == [a[0]] + a[1..];
  }

  /** A non-empty sequence is its head followed by its tail. */
  lemma {:induction false} HeadTail<T>(s: seq<T>)
    requires |s| > 0
    ensures s == [s[0]] + s[1..]
  {
  }

  /** Dropping the head of a concatenation with a non-empty left operand. */
  lemma {:induction false} TailAppend<T>(a: seq<T>, b: seq<T>)
    requires |a| > 0
    ensures (a + b)[0] == a[0] && (a + b)[1..] == a[1..] + b
  {
  }

  /** Concatenation is associative. */
  lemma {:induction false} AppendAssoc<T>(a: seq<T>, b: seq<T>, c: seq<T>)
    ensures (a + b) + c == a + (b + c)
  {
  }

  // ---------------------------------------------------------------------------------------
  // Insertion-ordered dictionaries, as a list of entries whose keys are distinct.

  datatype Entry<V> = Entry(key: string, value: V)

  function KeysOf<V>(d: seq<Entry<V>>): (ks: seq<string>)
    ensures |ks| == |d|
    ensures forall i :: 0 <= i < |d| ==> ks[i] == d[i].key
  {
    if |d| == 0 then [] else [d[0].key] + KeysOf(d[1..])
  }

  ghost predicate Distinct(ks: seq<string>) {
    forall i, j :: 0 <= i < j < |ks| ==> ks[i] != ks[j]
  }

  /** A Python dictionary never holds the same key twice. */
  ghost predicate IsDict<V>(d: seq<Entry<V>>) {
    Distinct(KeysOf(d))
  }

  function Lookup<V>(d: seq<Entry<V>>, k: string): (r: Option<V>)
    ensures r.Some? <==> k in KeysOf(d)
  {
    if |d| == 0 then None
    else if d[0].key == k then Some(d[0].value)
    else Lookup(d[1..], k)
  }

  /** `d.pop(k)` on a dictionary: the entry for `k` goes, the others keep their order. For a
      missing key Python raises `KeyError`; the result `d` given here is not that behaviour but
      a value for a case the model never reaches, since the relocation loop pops only keys it
      has shown to be present. */
  function Pop<V>(d: seq<Entry<V>>, k: string): (r: seq<Entry<V>>)
    ensures |r| <= |d|
  {
    if |d| == 0 then []
    else if d[0].key == k then d[1..]
    else [d[0]] + Pop(d[1..], k)
  }

  /** `d[k] = v`: an existing key keeps its place, a new key goes to the end. */
  function Put<V>(d: seq<Entry<V>>, k: string, v: V): (r: seq<Entry<V>>)
    ensures |d| <= |r| <= |d| + 1
  {
    if |d| == 0 then [Entry(k, v)]
    else if d[0].key == k then [Entry(k, v)] + d[1..]
    else [d[0]] + Put(d[1..], k, v)
  }

  lemma {:induction false} KeysOfCons<V>(e: Entry<V>, d: seq<Entry<V>>)
    ensures KeysOf([e] + d) == [e.key] + KeysOf(d)
  {
    assert ([e] + d)[1..] == d;
  }

  lemma {:induction false} KeysOfAppend<V>(a: seq<Entry<V>>, b: seq<Entry<V>>)
    ensures KeysOf(a + b) == KeysOf(a) + KeysOf(b)
  {
  }

  lemma {:induction false} DistinctTail<V>(d: seq<Entry<V>>)
    requires |d| > 0 && IsDict(d)
    ensures IsDict(d[1..]) && d[0].key !in KeysOf(d[1..])
  {
    assert KeysOf(d) == [d[0].key] + KeysOf(d[1..]);
  }

  lemma {:induction false} DistinctCons<V>(e: Entry<V>, d: seq<Entry<V>>)
    requires IsDict(d) && e.key !in KeysOf(d)
    ensures IsDict([e] + d)
  {
    KeysOfCons(e, d);
  }

  /** What `d.pop(k)` leaves: every other key with its value, still a dictionary. */
  lemma {:induction false} PopSpec<V>(d: seq<Entry<V>>, k: string)
    requires IsDict(d)
    ensures IsDict(Pop(d, k))
    ensures forall x :: x in KeysOf(Pop(d, k)) <==> x in KeysOf(d) && x != k
    ensures forall x :: x != k ==> Lookup(Pop(d, k), x) == Lookup(d, x)
    ensures k !in KeysOf(d) ==> Pop(d, k) == d
    ensures k in KeysOf(d) ==> |Pop(d, k)| == |d| - 1
  {
    if |d| > 0 {
      DistinctTail(d);
      if d[0].key != k {
        PopSpec(d[1..], k);
        KeysOfCons(d[0], Pop(d[1..], k));
        DistinctCons(d[0], Pop(d[1..], k));
        assert d == [d[0]] + d[1..];
      }
    }
  }

  /** What `d[k] = v` leaves: `k` now maps to `v`, every other key is untouched. */
  lemma {:induction false} PutSpec<V>(d: seq<Entry<V>>, k: string, v: V)
    requires IsDict(d)
    ensures IsDict(Put(d, k, v))
    ensures forall x :: x in KeysOf(Put(d, k, v)) <==> x in KeysOf(d) || x == k
    ensures Lookup(Put(d, k, v), k) == Some(v)
    ensures forall x :: x != k ==> Lookup(Put(d, k, v), x) == Lookup(d, x)
    ensures k in KeysOf(d) ==> |Put(d, k, v)| == |d|
  {
    PutKeys(d, k, v);
    PutLookup(d, k, v);
  }

  /** `d[k] = v` keeps the keys distinct and adds `k` to them; an existing key keeps the
      size. */
  lemma {:induction false} PutKeys<V>(d: seq<Entry<V>>, k: string, v: V)
    requires IsDict(d)
    ensures IsDict(Put(d, k, v))
    ensures forall x :: x in KeysOf(Put(d, k, v)) <==> x in KeysOf(d) || x == k
    ensures k in KeysOf(d) ==> |Put(d, k, v)| == |d|
  {
    if |d| > 0 {
      DistinctTail(d);
      assert KeysOf(d) == [d[0].key] + KeysOf(d[1..]);
      if d[0].key == k {
        KeysOfCons(Entry(k, v), d[1..]);
        DistinctCons(Entry(k, v), d[1..]);
      } else {
        var t := Put(d[1..], k, v);
        PutKeys(d[1..], k, v);
        KeysOfCons(d[0], t);
        DistinctCons(d[0], t);
      }
    }
  }

  /** After `d[k] = v`, looking up `k` gives `v` and any other key what it gave before. */
  lemma {:induction false} PutLookup<V>(d: seq<Entry<V>>, k: string, v: V)
    ensures Lookup(Put(d, k, v), k) == Some(v)
    ensures forall x :: x != k ==> Lookup(Put(d, k, v), x) == Lookup(d, x)
  {
    if |d| > 0 && d[0].key != k {
      var t := Put(d[1..], k, v);
      PutLookup(d[1..], k, v);
      assert ([d[0]] + t)[1..] == t;
    }
  }

  /** A key the dictionary did not hold is appended at the end. */
  lemma {:induction false} PutNewKey<V>(d: seq<Entry<V>>, k: string, v: V)
    requires k !in KeysOf(d)
    ensures Put(d, k, v) == d + [Entry(k, v)]
  {
    if |d| > 0 {
      assert KeysOf(d) == [d[0].key] + KeysOf(d[1..]);
      PutNewKey(d[1..], k, v);
      assert d == [d[0]] + d[1..];
    }
  }

  /** A key that no entry holds is not among the keys; a step for the proofs in
      `HugoPreprocessor`. */
  lemma {:induction false} NotInKeys<V>(d: seq<Entry<V>>, k: string)
    requires forall j :: 0 <= j < |d| ==> d[j].key != k
    ensures k !in KeysOf(d)
  {
  }

  /** Dropping the first entry of `a + b` and appending an entry with a new key keeps the
      keys distinct. */
  lemma {:induction false} DropFirstAppend<V>(a: seq<Entry<V>>, b: seq<Entry<V>>, e: Entry<V>)
    requires |a| > 0 && IsDict(a + b) && e.key !in KeysOf(a[1..] + b)
    ensures IsDict(a[1..] + (b + [e]))
  {
    var r := a[1..] + (b + [e]);
    var d := a + b;
    var c := a[1..] + b;
    forall i, j | 0 <= i < j < |r| ensures r[i].key != r[j].key {
      if j < |r| - 1 {
        assert r[i] == d[i + 1] && r[j] == d[j + 1];
        assert KeysOf(d)[i + 1] != KeysOf(d)[j + 1];
      } else {
        assert r[j] == e && r[i] == c[i];
        assert KeysOf(c)[i] == r[i].key;
      }
    }
    assert forall i :: 0 <= i < |r| ==> KeysOf(r)[i] == r[i].key;
  }
}
