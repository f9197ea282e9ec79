/** `normalizeJson` on values that share and may cycle, and the canonical text it leads to. */
module JsonNormalization {
  import opened Wrappers
  import opened Sequences
  import opened KeyOrder
  import opened CanonicalJson

  /** `NotJson` covers undefined, functions, symbols and big integers; arrays and objects are references. */
  datatype Value<N> =
    | Null
    | Bool(b: bool)
    | Number(n: N)
    | NegativeZero
    | NonFinite
    | String(s: Text)
    | NotJson
    | Reference(address: nat)

  /** An object lists its keys in the order of their insertion; `plain` says that it has no special prototype. */
  datatype Cell<N> =
    | ArrayCell(items: seq<Value<N>>)
    | ObjectCell(plain: bool, keys: seq<Text>, props: map<Text, Value<N>>)

  type Heap<N> = map<nat, Cell<N>>

  ghost predicate Consistent<N>(h: Heap<N>) {
    forall a | a in h && h[a].ObjectCell? :: Distinct(h[a].keys) && Elements(h[a].keys) == h[a].props.Keys
  }

  datatype Failure = NotFinite | Circular | NotPlain | NotJsonData

  function Lookup<N>(c: Cell<N>, keys: seq<Text>): (vs: seq<Value<N>>)
    requires c.ObjectCell? && Elements(keys) == c.props.Keys
    ensures |vs| == |keys| && forall i | 0 <= i < |keys| :: vs[i] == c.props[keys[i]]
  {
    seq(|keys|, i requires 0 <= i < |keys| => c.props[keys[i]])
  }

  function Normalize<N>(h: Heap<N>, v: Value<N>, seen: set<nat>): Result<Normal<N>, Failure>
    requires Consistent(h)
    decreases h.Keys - seen, 0
  {
    match v
    case Null => Ok(NNull)
    case Bool(b) => Ok(NBool(b))
    case Number(n) => Ok(NNumber(n))
    case NegativeZero => Ok(NNegativeZero)
    case NonFinite => Err(NotFinite)
    case String(s) => Ok(NString(s))
    case NotJson => Err(NotJsonData)
    case Reference(a) =>
      if a !in h then Err(NotJsonData)
      else if h[a].ArrayCell? then
        if a in seen then Err(Circular)
        else match NormalizeAll(h, h[a].items, seen + {a})
             case Ok(ns) => Ok(NArray(ns))
             case Err(e) => Err(e)
      else if !h[a].plain then Err(NotPlain)
      else if a in seen then Err(Circular)
      else
        SortSorts(h[a].keys);
        var keys := Sort(h[a].keys);
        match NormalizeAll(h, Lookup(h[a], keys), seen + {a})
        case Ok(ns) => Ok(NObject(keys, ns))
        case Err(e) => Err(e)
  }

  function NormalizeAll<N>(h: Heap<N>, vs: seq<Value<N>>, seen: set<nat>): Result<seq<Normal<N>>, Failure>
    requires Consistent(h)
    decreases h.Keys - seen, 1 + |vs|
  {
    if vs == [] then Ok([])
    else
      match Normalize(h, vs[0], seen)
      case Err(e) => Err(e)
      case Ok(n) =>
        match NormalizeAll(h, vs[1..], seen)
        case Err(e) => Err(e)
        case Ok(ns) => Ok([n] + ns)
  }

  function Canonicalize<N>(f: Numbers<N>, h: Heap<N>, v: Value<N>): Result<Text, Failure>
    requires Consistent(h)
  {
    match Normalize(h, v, {})
    case Ok(n) => Ok(Stringify(f, n))
    case Err(e) => Err(e)
  }

  // ----- Meaning, without any traversal order or set of seen objects -----

  /** `j` is the JSON data that `v` stands for: its references followed, its objects read as maps. */
  ghost predicate Denotes<N>(f: Numbers<N>, h: Heap<N>, v: Value<N>, j: Json<N>)
    requires Consistent(h)
    decreases j
  {
    match j
    case JNull => v.Null?
    case JBool(b) => v == Bool(b)
    case JNumber(n) => v == Number(n) || (v.NegativeZero? && n == f.zero)
    case JString(s) => v == String(s)
    case JArray(items) =>
      && v.Reference? && v.address in h && h[v.address].ArrayCell?
      && |h[v.address].items| == |items|
      && forall i | 0 <= i < |items| :: Denotes(f, h, h[v.address].items[i], items[i])
    case JObject(members) =>
      && v.Reference? && v.address in h && h[v.address].ObjectCell? && h[v.address].plain
      && h[v.address].props.Keys == members.Keys
      && forall k | k in members :: Denotes(f, h, h[v.address].props[k], members[k])
  }

  ghost predicate HasMeaning<N(!new)>(f: Numbers<N>, h: Heap<N>, v: Value<N>)
    requires Consistent(h)
  {
    exists j :: Denotes(f, h, v, j)
  }

  lemma {:induction false} MeaningIsUnique<N>(f: Numbers<N>, h: Heap<N>, v: Value<N>, j: Json<N>, k: Json<N>)
    requires Consistent(h) && Denotes(f, h, v, j) && Denotes(f, h, v, k)
    ensures j == k
    decreases j
  {
    match j
    case JNull =>
    case JBool(_) =>
    case JNumber(_) =>
    case JString(_) =>
    case JArray(items) =>
      forall i | 0 <= i < |items|
        ensures items[i] == k.items[i]
      {
        MeaningIsUnique(f, h, h[v.address].items[i], items[i], k.items[i]);
      }
      assert items == k.items;
    case JObject(members) =>
      forall key | key in members
        ensures members[key] == k.members[key]
      {
        MeaningIsUnique(f, h, h[v.address].props[key], members[key], k.members[key]);
      }
      assert members == k.members;
  }

  // ----- What normalisation returns has the right meaning -----

  ghost predicate DenotesAll<N>(f: Numbers<N>, h: Heap<N>, vs: seq<Value<N>>, js: seq<Json<N>>)
    requires Consistent(h)
  {
    |vs| == |js| && forall i | 0 <= i < |vs| :: Denotes(f, h, vs[i], js[i])
  }

  lemma {:induction false} NormalizedMeans<N>(f: Numbers<N>, h: Heap<N>, v: Value<N>, seen: set<nat>) returns (j: Json<N>)
    requires Consistent(h) && Normalize(h, v, seen).Ok?
    ensures Denotes(f, h, v, j) && Represents(f, Normalize(h, v, seen).value, j)
    decreases h.Keys - seen, 0
  {
    match v
    case Null => j := JNull;
    case Bool(b) => j := JBool(b);
    case Number(n) => j := JNumber(n);
    case NegativeZero => j := JNumber(f.zero);
    case String(s) => j := JString(s);
    case Reference(a) =>
      if h[a].ArrayCell? {
        var js := AllNormalizedMean(f, h, h[a].items, seen + {a});
        j := JArray(js);
      } else {
        SortSorts(h[a].keys);
        var keys := Sort(h[a].keys);
        var js := AllNormalizedMean(f, h, Lookup(h[a], keys), seen + {a});
        AscendingIsDistinct(keys);
        j := ObjectMeans(f, h, a, keys, js);
        assert seq(|keys|, i requires 0 <= i < |keys| => j.members[keys[i]]) == js;
      }
  }

  lemma ObjectMeans<N>(f: Numbers<N>, h: Heap<N>, a: nat, keys: seq<Text>, js: seq<Json<N>>) returns (j: Json<N>)
    requires Consistent(h) && a in h && h[a].ObjectCell? && h[a].plain && Distinct(keys) && Elements(keys) == h[a].props.Keys
    requires DenotesAll(f, h, Lookup(h[a], keys), js)
    ensures j.JObject? && j.members.Keys == Elements(keys) && Denotes(f, h, Reference(a), j)
    ensures forall i | 0 <= i < |keys| :: j.members[keys[i]] == js[i]
  {
    var members := Zip(keys, js);
    j := JObject(members);
    forall k | k in members
      ensures Denotes(f, h, h[a].props[k], members[k])
    {
      var i := FirstIndex(keys, k);
      assert Denotes(f, h, Lookup(h[a], keys)[i], js[i]);
    }
  }

  lemma AscendingIsDistinct(keys: seq<Text>)
    requires Ascending(keys)
    ensures Distinct(keys)
  {
    forall i, j | 0 <= i < j < |keys|
      ensures keys[i] != keys[j]
    {
      BeforeIsTotal(keys[i], keys[j]);
    }
  }

  ghost function Zip<T>(keys: seq<Text>, vs: seq<T>): (m: map<Text, T>)
    requires |keys| == |vs| && Distinct(keys)
    ensures m.Keys == Elements(keys)
    ensures forall i | 0 <= i < |keys| :: m[keys[i]] == vs[i]
  {
    map k | k in keys :: vs[FirstIndex(keys, k)]
  }

  lemma {:induction false} AllNormalizedMean<N>(f: Numbers<N>, h: Heap<N>, vs: seq<Value<N>>, seen: set<nat>) returns (js: seq<Json<N>>)
    requires Consistent(h) && NormalizeAll(h, vs, seen).Ok?
    ensures DenotesAll(f, h, vs, js) && RepresentsAll(f, NormalizeAll(h, vs, seen).value, js)
    decreases h.Keys - seen, 1 + |vs|
  {
    if vs == [] {
      js := [];
    } else {
      var j := NormalizedMeans(f, h, vs[0], seen);
      var rest := AllNormalizedMean(f, h, vs[1..], seen);
      js := [j] + rest;
    }
  }

  // ----- Whatever has a meaning is normalised: shared parts are no cycle -----

  /** Every object still open encloses `j` strictly. */
  ghost predicate Encloses<N(!new)>(f: Numbers<N>, h: Heap<N>, seen: set<nat>, j: Json<N>)
    requires Consistent(h)
  {
    forall a, k | a in seen && Denotes(f, h, Reference(a), k) :: j < k
  }

  lemma OpenObjectsEnclose<N(!new)>(f: Numbers<N>, h: Heap<N>, seen: set<nat>, a: nat, j: Json<N>, part: Json<N>)
    requires Consistent(h) && Encloses(f, h, seen, j) && Denotes(f, h, Reference(a), j) && part < j
    ensures a !in seen && Encloses(f, h, seen + {a}, part)
  {
    forall b, k | b in seen + {a} && Denotes(f, h, Reference(b), k)
      ensures part < k
    {
      if b == a {
        MeaningIsUnique(f, h, Reference(a), j, k);
      }
    }
  }

  lemma {:induction false} MeaningfulIsNormalized<N(!new)>(f: Numbers<N>, h: Heap<N>, v: Value<N>, seen: set<nat>, j: Json<N>)
    requires Consistent(h) && Denotes(f, h, v, j) && Encloses(f, h, seen, j)
    ensures Normalize(h, v, seen).Ok?
    decreases h.Keys - seen, 0
  {
    match j
    case JArray(items) =>
      var a := v.address;
      forall i | 0 <= i < |items|
        ensures a !in seen && Encloses(f, h, seen + {a}, items[i])
      {
        OpenObjectsEnclose(f, h, seen, a, j, items[i]);
      }
      assert a !in seen;
      AllMeaningfulNormalized(f, h, h[a].items, seen + {a}, items);
    case JObject(members) =>
      var a := v.address;
      assert a !in seen;
      SortSorts(h[a].keys);
      var keys := Sort(h[a].keys);
      var js := seq(|keys|, i requires 0 <= i < |keys| => members[keys[i]]);
      forall i | 0 <= i < |js|
        ensures Encloses(f, h, seen + {a}, js[i])
      {
        assert keys[i] in members;
        OpenObjectsEnclose(f, h, seen, a, j, js[i]);
      }
      AllMeaningfulNormalized(f, h, Lookup(h[a], keys), seen + {a}, js);
    case _ =>
  }

  lemma {:induction false} AllMeaningfulNormalized<N(!new)>(
    f: Numbers<N>, h: Heap<N>, vs: seq<Value<N>>, seen: set<nat>, js: seq<Json<N>>)
    requires Consistent(h) && DenotesAll(f, h, vs, js)
    requires forall i | 0 <= i < |js| :: Encloses(f, h, seen, js[i])
    ensures NormalizeAll(h, vs, seen).Ok?
    decreases h.Keys - seen, 1 + |vs|
  {
    if vs != [] {
      MeaningfulIsNormalized(f, h, vs[0], seen, js[0]);
      AllMeaningfulNormalized(f, h, vs[1..], seen, js[1..]);
    }
  }

  // ----- The two theorems -----

  /** Canonicalisation succeeds exactly on the values that stand for finite JSON data. */
  lemma CanonicalizesIff<N(!new)>(f: Numbers<N>, h: Heap<N>, v: Value<N>)
    requires Consistent(h)
    ensures Canonicalize(f, h, v).Ok? <==> HasMeaning(f, h, v)
  {
    if Canonicalize(f, h, v).Ok? {
      var j := NormalizedMeans(f, h, v, {});
    }
    if j :| Denotes(f, h, v, j) {
      MeaningfulIsNormalized(f, h, v, {}, j);
    }
  }

  /** Two values, even of different heaps, get the same text exactly when they stand for the same data. */
  lemma SameTextIffSameData<N(!new)>(
    f: Numbers<N>, h1: Heap<N>, v1: Value<N>, h2: Heap<N>, v2: Value<N>, j1: Json<N>, j2: Json<N>)
    requires Faithful(f) && Consistent(h1) && Consistent(h2)
    requires Denotes(f, h1, v1, j1) && Denotes(f, h2, v2, j2)
    ensures Canonicalize(f, h1, v1).Ok? && Canonicalize(f, h2, v2).Ok?
    ensures Canonicalize(f, h1, v1) == Canonicalize(f, h2, v2) <==> j1 == j2
  {
    CanonicalizesIff(f, h1, v1);
    CanonicalizesIff(f, h2, v2);
    var k1 := NormalizedMeans(f, h1, v1, {});
    var k2 := NormalizedMeans(f, h2, v2, {});
    MeaningIsUnique(f, h1, v1, j1, k1);
    MeaningIsUnique(f, h2, v2, j2, k2);
    TextDeterminesMeaning(f, Normalize(h1, v1, {}).value, Normalize(h2, v2, {}).value, j1, j2);
  }
}
