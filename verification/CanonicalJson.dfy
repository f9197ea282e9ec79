/** Canonical texts of JSON values, as the relayer bridge compares them. */
module CanonicalJson {
  import opened Sequences
  import opened KeyOrder
  import opened JsonText

  /**
   * The finite numbers other than -0 are the values of a type `N`, and `text` is the shortest
   * decimal that JavaScript prints for each.
   */
  datatype Numbers<!N> = Numbers(text: N -> Text, zero: N)

  predicate NumberUnit(u: Unit) {
    48 <= u <= 57 || u in {43, 45, 46, 101}
  }

  ghost predicate NumberText(t: Text) {
    t != [] && forall i | 0 <= i < |t| :: NumberUnit(t[i])
  }

  /** Different numbers print differently, with nothing but digits, signs, a point and an exponent. */
  ghost predicate Faithful<N(!new)>(f: Numbers<N>) {
    && (forall n :: NumberText(f.text(n)))
    && (forall a, b :: f.text(a) == f.text(b) ==> a == b)
  }

  /** JSON data as it is meant: objects are unordered, arrays ordered, and there is one zero. */
  datatype Json<N> =
    | JNull
    | JBool(b: bool)
    | JNumber(n: N)
    | JString(s: Text)
    | JArray(items: seq<Json<N>>)
    | JObject(members: map<Text, Json<N>>)

  /** What `normalizeJson` returns: keys and values in the order in which they will be printed. */
  datatype Normal<N> =
    | NNull
    | NBool(b: bool)
    | NNumber(n: N)
    | NNegativeZero
    | NString(s: Text)
    | NArray(items: seq<Normal<N>>)
    | NObject(keys: seq<Text>, items: seq<Normal<N>>)

  // ----- Printing -----

  const NULL_TEXT: Text := [110, 117, 108, 108]
  const TRUE_TEXT: Text := [116, 114, 117, 101]
  const FALSE_TEXT: Text := [102, 97, 108, 115, 101]

  function Label(keys: seq<Text>): Text {
    if keys == [] then [] else Quoted(keys[0]) + [COLON]
  }

  function Drop(keys: seq<Text>): seq<Text> {
    if keys == [] then [] else keys[1..]
  }

  function Stringify<N>(f: Numbers<N>, v: Normal<N>): Text
    decreases v
  {
    match v
    case NNull => NULL_TEXT
    case NBool(b) => if b then TRUE_TEXT else FALSE_TEXT
    case NNumber(n) => f.text(n)
    case NNegativeZero => f.text(f.zero)
    case NString(s) => Quoted(s)
    case NArray(items) => [OPEN_LIST] + First(f, [], items, CLOSE_LIST)
    case NObject(keys, items) => [OPEN_MAP] + First(f, keys, items, CLOSE_MAP)
  }

  /** The members of a list (no keys) or a map (one key each), up to and including the bracket. */
  function First<N>(f: Numbers<N>, keys: seq<Text>, items: seq<Normal<N>>, close: Unit): Text
    decreases items, 1
  {
    if items == [] then [close]
    else Label(keys) + Stringify(f, items[0]) + Rest(f, Drop(keys), items[1..], close)
  }

  function Rest<N>(f: Numbers<N>, keys: seq<Text>, items: seq<Normal<N>>, close: Unit): Text
    decreases items, 0
  {
    if items == [] then [close]
    else [COMMA] + (Label(keys) + (Stringify(f, items[0]) + Rest(f, Drop(keys), items[1..], close)))
  }

  // ----- Normalised data and its meaning -----

  ghost predicate Represents<N>(f: Numbers<N>, v: Normal<N>, j: Json<N>)
    decreases v
  {
    match v
    case NNull => j == JNull
    case NBool(b) => j == JBool(b)
    case NNumber(n) => j == JNumber(n)
    case NNegativeZero => j == JNumber(f.zero)
    case NString(s) => j == JString(s)
    case NArray(items) => j.JArray? && RepresentsAll(f, items, j.items)
    case NObject(keys, items) =>
      && j.JObject? && |keys| == |items|
      && Ascending(keys) && Elements(keys) == j.members.Keys
      && RepresentsAll(f, items, seq(|keys|, i requires 0 <= i < |keys| => j.members[keys[i]]))
  }

  ghost predicate RepresentsAll<N>(f: Numbers<N>, vs: seq<Normal<N>>, js: seq<Json<N>>)
    decreases vs
  {
    |vs| == |js| && forall i | 0 <= i < |vs| :: Represents(f, vs[i], js[i])
  }

  // ----- Equal meaning gives equal text -----

  lemma {:induction false} SameMeaningSameText<N>(f: Numbers<N>, v: Normal<N>, w: Normal<N>, j: Json<N>)
    requires Represents(f, v, j) && Represents(f, w, j)
    ensures Stringify(f, v) == Stringify(f, w)
    decreases v
  {
    match v
    case NNull =>
    case NBool(_) =>
    case NNumber(_) =>
    case NNegativeZero =>
    case NString(_) =>
    case NArray(items) =>
      SameMeaningSameMembers(f, [], items, w.items, j.items, CLOSE_LIST);
    case NObject(keys, items) =>
      AscendingIsUnique(keys, w.keys);
      SameMeaningSameMembers(f, keys, items, w.items, seq(|keys|, i requires 0 <= i < |keys| => j.members[keys[i]]), CLOSE_MAP);
  }

  lemma {:induction false} SameMeaningSameMembers<N>(
    f: Numbers<N>, keys: seq<Text>, vs: seq<Normal<N>>, ws: seq<Normal<N>>, js: seq<Json<N>>, close: Unit)
    requires RepresentsAll(f, vs, js) && RepresentsAll(f, ws, js)
    ensures First(f, keys, vs, close) == First(f, keys, ws, close)
    ensures Rest(f, keys, vs, close) == Rest(f, keys, ws, close)
    decreases vs
  {
    if vs != [] {
      SameMeaningSameText(f, vs[0], ws[0], js[0]);
      SameMeaningSameMembers(f, Drop(keys), vs[1..], ws[1..], js[1..], close);
    }
  }

  // ----- Equal text gives equal meaning -----

  /** What can follow a value: nothing, a comma or a closing bracket. */
  predicate Follows(r: Text) {
    r == [] || r[0] in {COMMA, CLOSE_LIST, CLOSE_MAP}
  }

  /** The first unit tells which kind of value a text holds. */
  function Head<N>(f: Numbers<N>, v: Normal<N>): Text {
    match v
    case NNull => [110]
    case NBool(b) => if b then [116] else [102]
    case NNumber(n) => f.text(n)
    case NNegativeZero => f.text(f.zero)
    case NString(s) => [QUOTE]
    case NArray(_) => [OPEN_LIST]
    case NObject(_, _) => [OPEN_MAP]
  }

  lemma HeadsText<N(!new)>(f: Numbers<N>, v: Normal<N>)
    requires Faithful(f)
    ensures Head(f, v) != [] && Stringify(f, v) != [] && Stringify(f, v)[0] == Head(f, v)[0]
    ensures NumberUnit(Head(f, v)[0]) <==> v.NNumber? || v.NNegativeZero?
    ensures Head(f, v)[0] !in {COMMA, CLOSE_LIST, CLOSE_MAP}
  {
    assert v.NNumber? ==> NumberText(f.text(v.n));
    assert NumberText(f.text(f.zero));
  }

  lemma NumberDecodes(a: Text, b: Text, r1: Text, r2: Text)
    requires NumberText(a) && NumberText(b) && Follows(r1) && Follows(r2) && a + r1 == b + r2
    ensures a == b && r1 == r2
  {
    var t := a + r1;
    assert forall i | 0 <= i < |t| :: t[i] == (if i < |a| then a[i] else r1[i - |a|]) == (if i < |b| then b[i] else r2[i - |b|]);
    assert |a| < |t| ==> t[|a|] == r1[0];
    assert |b| < |t| ==> t[|b|] == r2[0];
    assert |a| == |b|;
    assert t[..|a|] == a && (b + r2)[..|a|] == b && t[|a|..] == r1 && (b + r2)[|a|..] == r2;
  }

  lemma ConstantDecodes(a: Text, r1: Text, r2: Text)
    requires a + r1 == a + r2
    ensures r1 == r2
  {
    assert (a + r1)[|a|..] == r1 && (a + r2)[|a|..] == r2;
  }

  function NumberOf<N>(f: Numbers<N>, v: Normal<N>): N
    requires v.NNumber? || v.NNegativeZero?
  {
    if v.NNumber? then v.n else f.zero
  }

  lemma {:induction false} ValueDecodes<N(!new)>(
    f: Numbers<N>, v: Normal<N>, w: Normal<N>, j: Json<N>, k: Json<N>, r1: Text, r2: Text)
    requires Faithful(f) && Represents(f, v, j) && Represents(f, w, k) && Follows(r1) && Follows(r2)
    requires Stringify(f, v) + r1 == Stringify(f, w) + r2
    ensures j == k && r1 == r2
    decreases v
  {
    HeadsText(f, v);
    HeadsText(f, w);
    assert (Stringify(f, v) + r1)[0] == (Stringify(f, w) + r2)[0];
    match v
    case NNull =>
      ConstantDecodes(NULL_TEXT, r1, r2);
    case NBool(b) =>
      ConstantDecodes(if b then TRUE_TEXT else FALSE_TEXT, r1, r2);
    case NNumber(n) =>
      NumberDecodes(f.text(NumberOf(f, v)), f.text(NumberOf(f, w)), r1, r2);
    case NNegativeZero =>
      NumberDecodes(f.text(NumberOf(f, v)), f.text(NumberOf(f, w)), r1, r2);
    case NString(s) =>
      QuotedDecodes(s, w.s, r1, r2);
    case NArray(items) =>
      BracketDecodes(OPEN_LIST, First(f, [], items, CLOSE_LIST), First(f, [], w.items, CLOSE_LIST), r1, r2);
      FirstDecodes(f, false, [], [], items, w.items, j.items, k.items, CLOSE_LIST, r1, r2);
    case NObject(keys, items) =>
      BracketDecodes(OPEN_MAP, First(f, keys, items, CLOSE_MAP), First(f, w.keys, w.items, CLOSE_MAP), r1, r2);
      FirstDecodes(f, true, keys, w.keys, items, w.items, Listed(j, keys), Listed(k, w.keys), CLOSE_MAP, r1, r2);
      SameMembers(j, k, keys);
  }

  ghost function Listed<N>(j: Json<N>, keys: seq<Text>): seq<Json<N>>
    requires j.JObject? && Elements(keys) == j.members.Keys
  {
    seq(|keys|, i requires 0 <= i < |keys| => j.members[keys[i]])
  }

  lemma SameMembers<N>(j: Json<N>, k: Json<N>, keys: seq<Text>)
    requires j.JObject? && k.JObject? && Elements(keys) == j.members.Keys == k.members.Keys
    requires Listed(j, keys) == Listed(k, keys)
    ensures j == k
  {
    forall key | key in j.members
      ensures j.members[key] == k.members[key]
    {
      assert key in Elements(keys);
      var i :| 0 <= i < |keys| && keys[i] == key;
      assert Listed(j, keys)[i] == Listed(k, keys)[i];
    }
    assert j.members == k.members;
  }

  lemma BracketDecodes(open: Unit, a: Text, b: Text, r1: Text, r2: Text)
    requires [open] + a + r1 == [open] + b + r2
    ensures a + r1 == b + r2
  {
    assert [open] + a + r1 == [open] + (a + r1) && [open] + b + r2 == [open] + (b + r2);
    ConstantDecodes([open], a + r1, b + r2);
  }

  /** Lists have no keys; maps have one for each member. */
  ghost predicate Keyed<N>(isMap: bool, keys: seq<Text>, vs: seq<Normal<N>>) {
    if isMap then |keys| == |vs| else keys == []
  }

  lemma RestFollows<N>(f: Numbers<N>, keys: seq<Text>, vs: seq<Normal<N>>, close: Unit, r: Text)
    requires close == CLOSE_LIST || close == CLOSE_MAP
    ensures Follows(Rest(f, keys, vs, close) + r)
    ensures (Rest(f, keys, vs, close) + r)[0] == if vs == [] then close else COMMA
  {
  }

  lemma Regroup(a: Text, b: Text, c: Text)
    ensures (a + b) + c == a + (b + c)
  {
  }

  lemma KeyDecodes(key: Text, other: Text, r1: Text, r2: Text)
    requires (Quoted(key) + [COLON]) + r1 == (Quoted(other) + [COLON]) + r2
    ensures key == other && r1 == r2
  {
    var rest1, rest2 := [COLON] + r1, [COLON] + r2;
    Regroup(Quoted(key), [COLON], r1);
    Regroup(Quoted(other), [COLON], r2);
    QuotedDecodes(key, other, rest1, rest2);
    ConstantDecodes([COLON], r1, r2);
  }

  lemma LabelDecodes(isMap: bool, keys: seq<Text>, other: seq<Text>, r1: Text, r2: Text)
    requires if isMap then keys != [] && other != [] else keys == other == []
    requires Label(keys) + r1 == Label(other) + r2
    ensures isMap ==> keys[0] == other[0]
    ensures r1 == r2
  {
    if isMap {
      KeyDecodes(keys[0], other[0], r1, r2);
    } else {
      ConstantDecodes([], r1, r2);
    }
  }

  /** One or more members, the closing bracket, and what follows. */
  ghost function Members<N>(f: Numbers<N>, keys: seq<Text>, vs: seq<Normal<N>>, close: Unit, r: Text): Text
    requires vs != []
  {
    Label(keys) + (Stringify(f, vs[0]) + (Rest(f, Drop(keys), vs[1..], close) + r))
  }

  lemma MembersUnfold<N>(f: Numbers<N>, keys: seq<Text>, vs: seq<Normal<N>>, close: Unit, r: Text)
    requires vs != []
    ensures First(f, keys, vs, close) + r == Members(f, keys, vs, close, r)
    ensures Rest(f, keys, vs, close) + r == [COMMA] + Members(f, keys, vs, close, r)
  {
    var key, value, rest := Label(keys), Stringify(f, vs[0]), Rest(f, Drop(keys), vs[1..], close);
    Regroup(key + value, rest, r);
    Regroup(key, value, rest + r);
    RegroupFour(key, value, rest, r);
  }

  lemma RegroupFour(key: Text, value: Text, rest: Text, r: Text)
    ensures [COMMA] + (key + (value + rest)) + r == [COMMA] + (key + (value + (rest + r)))
  {
    Regroup([COMMA], key + (value + rest), r);
    Regroup(key, value + rest, r);
    Regroup(value, rest, r);
  }

  lemma {:induction false} MembersDecode<N(!new)>(
    f: Numbers<N>, isMap: bool, keys: seq<Text>, other: seq<Text>, vs: seq<Normal<N>>, ws: seq<Normal<N>>,
    js: seq<Json<N>>, ks: seq<Json<N>>, close: Unit, r1: Text, r2: Text)
    requires Faithful(f) && RepresentsAll(f, vs, js) && RepresentsAll(f, ws, ks)
    requires close == CLOSE_LIST || close == CLOSE_MAP
    requires Keyed(isMap, keys, vs) && Keyed(isMap, other, ws) && vs != [] && ws != []
    requires Members(f, keys, vs, close, r1) == Members(f, other, ws, close, r2)
    ensures keys == other && js == ks && r1 == r2
    decreases vs, 0
  {
    var rest1, rest2 := Rest(f, Drop(keys), vs[1..], close) + r1, Rest(f, Drop(other), ws[1..], close) + r2;
    LabelDecodes(isMap, keys, other, Stringify(f, vs[0]) + rest1, Stringify(f, ws[0]) + rest2);
    RestFollows(f, Drop(keys), vs[1..], close, r1);
    RestFollows(f, Drop(other), ws[1..], close, r2);
    ValueDecodes(f, vs[0], ws[0], js[0], ks[0], rest1, rest2);
    RestDecodes(f, isMap, Drop(keys), Drop(other), vs[1..], ws[1..], js[1..], ks[1..], close, r1, r2);
    assert js == [js[0]] + js[1..] && ks == [ks[0]] + ks[1..];
    assert isMap ==> keys == [keys[0]] + keys[1..] && other == [other[0]] + other[1..];
  }

  lemma {:induction false} RestDecodes<N(!new)>(
    f: Numbers<N>, isMap: bool, keys: seq<Text>, other: seq<Text>, vs: seq<Normal<N>>, ws: seq<Normal<N>>,
    js: seq<Json<N>>, ks: seq<Json<N>>, close: Unit, r1: Text, r2: Text)
    requires Faithful(f) && RepresentsAll(f, vs, js) && RepresentsAll(f, ws, ks)
    requires close == CLOSE_LIST || close == CLOSE_MAP
    requires Keyed(isMap, keys, vs) && Keyed(isMap, other, ws)
    requires Rest(f, keys, vs, close) + r1 == Rest(f, other, ws, close) + r2
    ensures keys == other && js == ks && r1 == r2
    decreases vs, 1
  {
    RestFollows(f, keys, vs, close, r1);
    RestFollows(f, other, ws, close, r2);
    if vs == [] {
      ConstantDecodes([close], r1, r2);
    } else {
      MembersUnfold(f, keys, vs, close, r1);
      MembersUnfold(f, other, ws, close, r2);
      ConstantDecodes([COMMA], Members(f, keys, vs, close, r1), Members(f, other, ws, close, r2));
      MembersDecode(f, isMap, keys, other, vs, ws, js, ks, close, r1, r2);
    }
  }

  lemma FirstHead<N(!new)>(f: Numbers<N>, keys: seq<Text>, vs: seq<Normal<N>>, close: Unit, r: Text)
    requires Faithful(f) && (close == CLOSE_LIST || close == CLOSE_MAP)
    ensures First(f, keys, vs, close) != []
    ensures (First(f, keys, vs, close) + r)[0] == close <==> vs == []
  {
    if vs != [] {
      HeadsText(f, vs[0]);
    }
  }

  lemma {:induction false} FirstDecodes<N(!new)>(
    f: Numbers<N>, isMap: bool, keys: seq<Text>, other: seq<Text>, vs: seq<Normal<N>>, ws: seq<Normal<N>>,
    js: seq<Json<N>>, ks: seq<Json<N>>, close: Unit, r1: Text, r2: Text)
    requires Faithful(f) && RepresentsAll(f, vs, js) && RepresentsAll(f, ws, ks)
    requires close == CLOSE_LIST || close == CLOSE_MAP
    requires Keyed(isMap, keys, vs) && Keyed(isMap, other, ws)
    requires First(f, keys, vs, close) + r1 == First(f, other, ws, close) + r2
    ensures keys == other && js == ks && r1 == r2
    decreases vs, 2
  {
    FirstHead(f, keys, vs, close, r1);
    FirstHead(f, other, ws, close, r2);
    if vs == [] {
      ConstantDecodes([close], r1, r2);
    } else {
      MembersUnfold(f, keys, vs, close, r1);
      MembersUnfold(f, other, ws, close, r2);
      MembersDecode(f, isMap, keys, other, vs, ws, js, ks, close, r1, r2);
    }
  }

  /** Two normalised values have the same text exactly when they mean the same JSON data. */
  lemma TextDeterminesMeaning<N(!new)>(f: Numbers<N>, v: Normal<N>, w: Normal<N>, j: Json<N>, k: Json<N>)
    requires Faithful(f) && Represents(f, v, j) && Represents(f, w, k)
    ensures Stringify(f, v) == Stringify(f, w) <==> j == k
  {
    if Stringify(f, v) == Stringify(f, w) {
      ValueDecodes(f, v, w, j, k, [], []);
    }
    if j == k {
      SameMeaningSameText(f, v, w, j);
    }
  }
}
