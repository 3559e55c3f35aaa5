/** The object hook of the strict JSON readers: pairs become a dictionary only if no name repeats. */
module StrictJson {
  import opened Ordering
  import opened Text
  import Json

  /** A decoded JSON value, with objects as dictionaries. */
  datatype Decoded =
    | NullValue
    | BoolValue(b: bool)
    | IntValue(n: int)
    | FloatValue(text: Str)
    | StringValue(text: Str)
    | ListValue(items: seq<Decoded>)
    | DictValue(fields: map<Str, Decoded>)

  datatype Pair = Pair(name: Str, value: Decoded)

  function PairName(p: Pair): Str { p.name }

  /** `dict` holds exactly the given pairs. */
  ghost predicate HoldsExactly(dict: map<Str, Decoded>, pairs: seq<Pair>) {
    && (forall i :: 0 <= i < |pairs| ==> pairs[i].name in dict && dict[pairs[i].name] == pairs[i].value)
    && (forall n :: n in dict ==> exists i :: 0 <= i < |pairs| && pairs[i].name == n)
  }

  lemma LastRepeats(pairs: seq<Pair>)
    requires pairs != []
    ensures var init, last := pairs[..|pairs| - 1], pairs[|pairs| - 1];
      NoRepeats(Map(PairName, pairs)) <==>
      NoRepeats(Map(PairName, init)) && forall i :: 0 <= i < |pairs| - 1 ==> pairs[i].name != last.name
  {
    var names, shorter := Map(PairName, pairs), Map(PairName, pairs[..|pairs| - 1]);
    assert forall i :: 0 <= i < |shorter| ==> names[i] == shorter[i];
  }

  /** The dictionary of the pairs, unless a name repeats. */
  function Dict(pairs: seq<Pair>): Option<map<Str, Decoded>> {
    if pairs == [] then Some(map[])
    else
      var last := pairs[|pairs| - 1];
      match Dict(pairs[..|pairs| - 1])
      case None => None
      case Some(dict) => if last.name in dict then None else Some(dict[last.name := last.value])
  }

  lemma HoldsOneMore(dict: map<Str, Decoded>, pairs: seq<Pair>)
    requires pairs != [] && HoldsExactly(dict, pairs[..|pairs| - 1])
    ensures var last := pairs[|pairs| - 1];
      && (last.name in dict <==> exists i :: 0 <= i < |pairs| - 1 && pairs[i].name == last.name)
      && (last.name !in dict ==> HoldsExactly(dict[last.name := last.value], pairs))
  {
    var init, last := pairs[..|pairs| - 1], pairs[|pairs| - 1];
    assert forall i :: 0 <= i < |init| ==> init[i] == pairs[i];
    if last.name !in dict {
      var more := dict[last.name := last.value];
      forall n | n in more ensures exists i :: 0 <= i < |pairs| && pairs[i].name == n {
        if n != last.name {
          var i :| 0 <= i < |init| && init[i].name == n;
          assert pairs[i].name == n;
        }
      }
    }
  }

  /** There is a dictionary exactly when no name repeats, and it holds exactly the pairs. */
  lemma {:induction false} DictMeaning(pairs: seq<Pair>)
    ensures Dict(pairs).Some? <==> NoRepeats(Map(PairName, pairs))
    ensures Dict(pairs).Some? ==> HoldsExactly(Dict(pairs).value, pairs)
  {
    hide HoldsExactly, NoRepeats, Map;
    if pairs == [] {
      NoPairs();
    } else {
      DictMeaning(pairs[..|pairs| - 1]);
      LastRepeats(pairs);
      if Dict(pairs[..|pairs| - 1]).Some? { HoldsOneMore(Dict(pairs[..|pairs| - 1]).value, pairs); }
    }
  }

  lemma NoPairs()
    ensures NoRepeats(Map(PairName, [])) && HoldsExactly(map[], [])
  {
  }

  /** The loop every strict reader hands to `object_pairs_hook`; `None` when it raises on a repeated name. */
  method UniquePairs(pairs: seq<Pair>) returns (r: Option<map<Str, Decoded>>)
    ensures r == Dict(pairs)
    ensures r.Some? <==> NoRepeats(Map(PairName, pairs))
    ensures r.Some? ==> HoldsExactly(r.value, pairs)
  {
    hide NoRepeats, Map, HoldsExactly;
    DictMeaning(pairs);
    var result: map<Str, Decoded> := map[];
    var i := 0;
    while i < |pairs|
      invariant 0 <= i <= |pairs|
      invariant Dict(pairs[..i]) == Some(result)
    {
      assert pairs[..i + 1][..i] == pairs[..i];
      if pairs[i].name in result {
        DictStops(pairs, i + 1);
        return None;
      }
      result := result[pairs[i].name := pairs[i].value];
      i := i + 1;
    }
    assert pairs[..i] == pairs;
    r := Some(result);
  }

  lemma {:induction false} DictStops(pairs: seq<Pair>, k: nat)
    requires k <= |pairs| && Dict(pairs[..k]).None?
    ensures Dict(pairs).None?
    decreases |pairs|
  {
    if k == |pairs| {
      assert pairs[..k] == pairs;
    } else {
      assert pairs[..|pairs| - 1][..k] == pairs[..k];
      DictStops(pairs[..|pairs| - 1], k);
    }
  }

  /** What `json.loads` with the hook makes of a value as read; `None` when the hook raises somewhere. */
  function Build(v: Json.Raw): Option<Decoded>
    decreases v, 1
  {
    match v
    case Null => Some(NullValue)
    case Bool(b) => Some(BoolValue(b))
    case Int(n) => Some(IntValue(n))
    case Float(text) => Some(FloatValue(text))
    case String(text) => Some(StringValue(text))
    case Array(items) =>
      (match BuildItems(items) case None => None case Some(values) => Some(ListValue(values)))
    case Object(members) =>
      match BuildMembers(members)
      case None => None
      case Some(pairs) => match Dict(pairs) case None => None case Some(dict) => Some(DictValue(dict))
  }

  function BuildItems(items: seq<Json.Raw>): (r: Option<seq<Decoded>>)
    ensures r.Some? ==> |r.value| == |items|
    decreases items, 0
  {
    if items == [] then Some([])
    else
      match Build(items[0])
      case None => None
      case Some(value) => match BuildItems(items[1..]) case None => None case Some(rest) => Some([value] + rest)
  }

  function BuildMembers(members: seq<Json.Member>): (r: Option<seq<Pair>>)
    ensures r.Some? ==> |r.value| == |members|
    decreases members, 0
  {
    if members == [] then Some([])
    else
      match Build(members[0].value)
      case None => None
      case Some(value) => match BuildMembers(members[1..]) case None => None
        case Some(rest) => Some([Pair(members[0].name, value)] + rest)
  }

  function MemberName(m: Json.Member): Str { m.name }

  /** No object anywhere in the value repeats a name. */
  ghost predicate NoDuplicates(v: Json.Raw)
    decreases v, 1
  {
    match v
    case Array(items) => forall i :: 0 <= i < |items| ==> NoDuplicates(items[i])
    case Object(members) =>
      NoRepeats(Map(MemberName, members)) && forall i :: 0 <= i < |members| ==> NoDuplicatesIn(members[i])
    case _ => true
  }

  ghost predicate NoDuplicatesIn(m: Json.Member)
    decreases m, 0
  {
    NoDuplicates(m.value)
  }

  /** `d` holds what `v` says: the same scalars and lists, and for each object exactly its pairs. */
  ghost predicate Mirrors(v: Json.Raw, d: Decoded)
    decreases v, 1
  {
    match v
    case Null => d == NullValue
    case Bool(b) => d == BoolValue(b)
    case Int(n) => d == IntValue(n)
    case Float(text) => d == FloatValue(text)
    case String(text) => d == StringValue(text)
    case Array(items) =>
      d.ListValue? && |d.items| == |items| && forall i :: 0 <= i < |items| ==> Mirrors(items[i], d.items[i])
    case Object(members) =>
      && d.DictValue?
      && (forall i :: 0 <= i < |members| ==> MirrorsMember(members[i], d.fields))
      && (forall n :: n in d.fields ==> exists i :: 0 <= i < |members| && members[i].name == n)
  }

  ghost predicate MirrorsMember(m: Json.Member, fields: map<Str, Decoded>)
    decreases m, 0
  {
    m.name in fields && Mirrors(m.value, fields[m.name])
  }

  /** Decoding succeeds exactly when no object repeats a name, and then keeps everything that was read. */
  lemma {:induction false} DuplicatesRejected(v: Json.Raw)
    ensures Build(v).Some? <==> NoDuplicates(v)
    ensures Build(v).Some? ==> Mirrors(v, Build(v).value)
    decreases v, 1
  {
    match v
    case Array(items) =>
      ItemsBuild(items);
    case Object(members) =>
      MembersBuild(members);
      if BuildMembers(members).Some? {
        var pairs := BuildMembers(members).value;
        assert Map(PairName, pairs) == Map(MemberName, members);
        DictMeaning(pairs);
      }
    case _ =>
  }

  lemma {:induction false} ItemsBuild(items: seq<Json.Raw>)
    ensures BuildItems(items).Some? <==> forall i :: 0 <= i < |items| ==> NoDuplicates(items[i])
    ensures BuildItems(items).Some? ==> forall i :: 0 <= i < |items| ==> Mirrors(items[i], BuildItems(items).value[i])
    decreases items, 0
  {
    hide NoDuplicates, Mirrors;
    if items != [] {
      DuplicatesRejected(items[0]);
      ItemsBuild(items[1..]);
      assert forall i :: 1 <= i < |items| ==> items[i] == items[1..][i - 1];
      if forall i :: 0 <= i < |items| ==> NoDuplicates(items[i]) {
        forall i | 0 <= i < |items[1..]| ensures NoDuplicates(items[1..][i]) { assert items[1..][i] == items[i + 1]; }
      }
    }
  }

  lemma {:induction false} MembersBuild(members: seq<Json.Member>)
    ensures BuildMembers(members).Some? <==> forall i :: 0 <= i < |members| ==> NoDuplicatesIn(members[i])
    ensures BuildMembers(members).Some? ==> forall i :: 0 <= i < |members| ==>
      BuildMembers(members).value[i].name == members[i].name
        && Mirrors(members[i].value, BuildMembers(members).value[i].value)
    decreases members, 0
  {
    hide NoDuplicates, Mirrors;
    if members != [] {
      DuplicatesRejected(members[0].value);
      MembersBuild(members[1..]);
      assert forall i :: 1 <= i < |members| ==> members[i] == members[1..][i - 1];
      if forall i :: 0 <= i < |members| ==> NoDuplicatesIn(members[i]) {
        forall i | 0 <= i < |members[1..]|
          ensures NoDuplicatesIn(members[1..][i])
        {
          assert members[1..][i] == members[i + 1];
        }
      }
    }
  }
}
