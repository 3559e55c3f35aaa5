/** Reading a JSON file strictly and writing it back indented, as the manifest tools do. */
module JsonFile {
  import opened Ordering
  import opened Text
  import opened FileTree
  import Utf8
  import Json
  import opened StrictJson

  /**
   * Floats as Python has them: `repr` is what a float literal is written back as, `whole` the integer a written float
   * equals, if there is one.
   */
  datatype Floats = Floats(repr: Str -> Str, whole: Str -> Option<int>)

  /** A float is written as a literal that is written back as itself, or as an infinity. */
  ghost predicate SoundFloats(f: Floats) {
    forall text :: Json.FloatText(f.repr(text))
      && (Json.FloatLiteral(f.repr(text)) ==> f.repr(f.repr(text)) == f.repr(text))
  }

  /** The value with every float as it will be written. */
  function Normal(v: Json.Raw, f: Floats): Json.Raw
    decreases v, 1
  {
    match v
    case Float(text) => Json.Float(f.repr(text))
    case Array(items) => Json.Array(NormalItems(items, f))
    case Object(members) => Json.Object(NormalMembers(members, f))
    case _ => v
  }

  function NormalItems(items: seq<Json.Raw>, f: Floats): (r: seq<Json.Raw>)
    ensures |r| == |items| && forall i :: 0 <= i < |r| ==> r[i] == Normal(items[i], f)
    decreases items, 0
  {
    if items == [] then [] else [Normal(items[0], f)] + NormalItems(items[1..], f)
  }

  function NormalMember(m: Json.Member, f: Floats): Json.Member
    decreases m, 0
  {
    Json.Member(m.name, Normal(m.value, f))
  }

  function NormalMembers(members: seq<Json.Member>, f: Floats): (r: seq<Json.Member>)
    ensures |r| == |members| && forall i :: 0 <= i < |r| ==> r[i] == NormalMember(members[i], f)
    decreases members, 0
  {
    if members == [] then [] else [NormalMember(members[0], f)] + NormalMembers(members[1..], f)
  }

  /** `read_json`: strict UTF-8, one JSON value, no repeated name anywhere; `None` when it raises. */
  function ReadJson(content: Bytes, f: Floats): Option<Json.Raw> {
    match Utf8.Decode(content)
    case None => None
    case Some(text) =>
      match Json.Loads(text)
      case None => None
      case Some(v) => if Build(v).None? then None else Some(Normal(v, f))
  }

  /**
   * `write_text(json.dumps(v, indent=2, ensure_ascii=False) + "\n", encoding="utf-8")`; `None` when it cannot be
   * encoded.
   */
  function WriteJson(v: Json.Raw): Option<Bytes> {
    Utf8.Encode(Json.Print(v, Json.INDENTED) + [Json.NEWLINE])
  }

  /** What is written: the indented text and one line break, in UTF-8. */
  lemma WrittenText(v: Json.Raw)
    ensures WriteJson(v) == Utf8.Encode(Json.Print(v, Json.Layout(false, Some(0))) + U("\n"))
  {
    hide Json.Print, Utf8.Encode;
    assert U("\n") == [Json.NEWLINE];
  }

  /** Every float is written as itself when it is finite. */
  predicate Reprs(v: Json.Raw, f: Floats)
    decreases v, 1
  {
    match v
    case Float(text) => Json.FloatText(text) && (Json.FloatLiteral(text) ==> f.repr(text) == text)
    case Array(items) => forall i :: 0 <= i < |items| ==> Reprs(items[i], f)
    case Object(members) => forall i :: 0 <= i < |members| ==> ReprsMember(members[i], f)
    case _ => true
  }

  predicate ReprsMember(m: Json.Member, f: Floats)
    decreases m, 0
  {
    Reprs(m.value, f)
  }

  /** A value as `read_json` returns it. */
  ghost predicate Canonical(v: Json.Raw, f: Floats) {
    Reprs(v, f) && NoDuplicates(v)
  }

  lemma {:induction false} NormalReprs(v: Json.Raw, f: Floats)
    requires SoundFloats(f)
    ensures Reprs(Normal(v, f), f)
    decreases v, 1
  {
    hide Json.FloatText, Json.FloatLiteral;
    match v
    case Array(items) =>
      forall i | 0 <= i < |items| ensures Reprs(NormalItems(items, f)[i], f) { NormalReprs(items[i], f); }
    case Object(members) =>
      forall i | 0 <= i < |members| ensures ReprsMember(NormalMembers(members, f)[i], f) {
        MemberReprs(members[i], f);
      }
    case _ =>
  }

  lemma {:induction false} MemberReprs(m: Json.Member, f: Floats)
    requires SoundFloats(f)
    ensures ReprsMember(NormalMember(m, f), f)
    decreases m, 0
  {
    NormalReprs(m.value, f);
  }

  lemma {:induction false} NormalNames(v: Json.Raw, f: Floats)
    requires NoDuplicates(v)
    ensures NoDuplicates(Normal(v, f))
    decreases v, 1
  {
    match v
    case Array(items) =>
      forall i | 0 <= i < |items| ensures NoDuplicates(NormalItems(items, f)[i]) { NormalNames(items[i], f); }
    case Object(members) =>
      var ms := NormalMembers(members, f);
      assert Map(MemberName, ms) == Map(MemberName, members);
      forall i | 0 <= i < |members| ensures NoDuplicatesIn(ms[i]) { MemberNames(members[i], f); }
    case _ =>
  }

  lemma {:induction false} MemberNames(m: Json.Member, f: Floats)
    requires NoDuplicatesIn(m)
    ensures NoDuplicatesIn(NormalMember(m, f))
    decreases m, 0
  {
    NormalNames(m.value, f);
  }

  lemma {:induction false} NormalFixed(v: Json.Raw, f: Floats)
    requires Reprs(v, f) && Json.Printable(v, false)
    ensures Normal(v, f) == v
    decreases v, 1
  {
    hide Json.FloatText, Json.FloatLiteral;
    match v
    case Array(items) =>
      forall i | 0 <= i < |items| ensures NormalItems(items, f)[i] == items[i] { NormalFixed(items[i], f); }
    case Object(members) =>
      forall i | 0 <= i < |members| ensures NormalMembers(members, f)[i] == members[i] {
        assert ReprsMember(members[i], f) && Json.PrintableMember(members[i], false);
        MemberFixed(members[i], f);
      }
    case _ =>
  }

  lemma {:induction false} MemberFixed(m: Json.Member, f: Floats)
    requires ReprsMember(m, f) && Json.PrintableMember(m, false)
    ensures NormalMember(m, f) == m
    decreases m, 0
  {
    NormalFixed(m.value, f);
  }

  lemma {:induction false} ReprsWritten(v: Json.Raw, f: Floats)
    requires Reprs(v, f)
    ensures Json.Written(v)
    decreases v, 1
  {
    hide Json.FloatText, Json.FloatLiteral;
    match v
    case Array(items) =>
      forall i | 0 <= i < |items| ensures Json.Written(items[i]) { ReprsWritten(items[i], f); }
    case Object(members) =>
      forall i | 0 <= i < |members| ensures Json.WrittenMember(members[i]) {
        assert ReprsMember(members[i], f);
        MemberWritten(members[i], f);
      }
    case _ =>
  }

  lemma {:induction false} MemberWritten(m: Json.Member, f: Floats)
    requires ReprsMember(m, f)
    ensures Json.WrittenMember(m)
    decreases m, 0
  {
    ReprsWritten(m.value, f);
  }

  /** What is read is canonical. */
  lemma ReadIsCanonical(content: Bytes, f: Floats)
    requires SoundFloats(f)
    ensures ReadJson(content, f).Some? ==> Canonical(ReadJson(content, f).value, f)
  {
    hide Normal, Build, Reprs, NoDuplicates, Json.Loads, SoundFloats;
    if ReadJson(content, f).Some? {
      var v := Json.Loads(Utf8.Decode(content).value).value;
      DuplicatesRejected(v);
      NormalReprs(v, f);
      NormalNames(v, f);
    }
  }

  /**
   * Writing back what was read: it can be encoded exactly if it holds no surrogate, and then it is read again as it was
   * exactly if it holds no infinite float; otherwise it cannot be read at all.
   */
  lemma RewriteOutcome(v: Json.Raw, f: Floats)
    requires Canonical(v, f)
    ensures WriteJson(v).Some? <==> Json.Clean(v)
    ensures Json.Clean(v) ==>
      ReadJson(WriteJson(v).value, f) == if Json.Printable(v, false) then Some(v) else None
  {
    hide Normal, Build, Reprs, NoDuplicates, Json.Loads, Json.Print, Json.Clean, Json.Printable, Json.Written;
    hide Utf8.Encode, Utf8.Decode, Json.SkipSpace;
    var body, end: Str := Json.Print(v, Json.INDENTED), [Json.NEWLINE];
    ReprsWritten(v, f);
    Json.PrintFits(v, Json.INDENTED);
    Utf8.NoSurrogateConcat(body, end);
    Utf8.RoundTrip(body + end);
    DuplicatesRejected(v);
    if Json.Printable(v, false) {
      Json.TextRoundTrip(v, Json.INDENTED);
      NormalFixed(v, f);
    } else {
      Json.LoadsValue(v, Json.INDENTED, end);
      Json.InfinityUnreadable(v, Json.INDENTED, end);
    }
  }

  // ---- one field of an object ------------------------------------------------------------------------

  /** `d[name]`, or nothing. */
  function Lookup(members: seq<Json.Member>, name: Str): Option<Json.Raw> {
    if members == [] then None
    else if members[0].name == name then Some(members[0].value)
    else Lookup(members[1..], name)
  }

  /** `d[name] = value`: in its place, or at the end. */
  function Assign(members: seq<Json.Member>, name: Str, value: Json.Raw): seq<Json.Member> {
    if members == [] then [Json.Member(name, value)]
    else if members[0].name == name then [Json.Member(name, value)] + members[1..]
    else [members[0]] + Assign(members[1..], name, value)
  }

  /** What is found after an assignment. */
  lemma {:induction false} AssignLookup(members: seq<Json.Member>, name: Str, value: Json.Raw)
    ensures Lookup(Assign(members, name, value), name) == Some(value)
    ensures Assign(Assign(members, name, value), name, value) == Assign(members, name, value)
  {
    if members != [] && members[0].name != name { AssignLookup(members[1..], name, value); }
  }

  /** An assignment changes one member and adds no name twice. */
  lemma {:induction false} AssignMembers(members: seq<Json.Member>, name: Str, value: Json.Raw, m: Json.Member)
    requires NoRepeats(Map(MemberName, members))
    ensures m in Assign(members, name, value) <==> m == Json.Member(name, value) || (m in members && m.name != name)
    ensures NoRepeats(Map(MemberName, Assign(members, name, value)))
  {
    var all := Assign(members, name, value);
    if members != [] {
      var first, rest := members[0], members[1..];
      TailNames(members);
      assert members == [first] + rest;
      if first.name == name {
        assert Map(MemberName, all) == Map(MemberName, members);
        assert m in rest ==> m.name != name by { if m in rest { NotAgain(members, m); } }
      } else {
        AssignMembers(rest, name, value, m);
        forall i | 0 < i < |all| ensures all[i].name != first.name {
          AssignMembers(rest, name, value, all[i]);
          assert all[i] == Assign(rest, name, value)[i - 1];
          if all[i] in rest { NotAgain(members, all[i]); }
        }
        FirstNew(all);
      }
    }
  }

  lemma TailNames(members: seq<Json.Member>)
    requires members != [] && NoRepeats(Map(MemberName, members))
    ensures NoRepeats(Map(MemberName, members[1..]))
  {
    var names, rest := Map(MemberName, members), Map(MemberName, members[1..]);
    assert forall i :: 0 <= i < |rest| ==> rest[i] == names[i + 1];
  }

  lemma NotAgain(members: seq<Json.Member>, m: Json.Member)
    requires members != [] && NoRepeats(Map(MemberName, members)) && m in members[1..]
    ensures m.name != members[0].name
  {
    var i :| 0 <= i < |members[1..]| && members[1..][i] == m;
    var names := Map(MemberName, members);
    assert names[0] != names[i + 1];
  }

  lemma FirstNew(members: seq<Json.Member>)
    requires members != [] && NoRepeats(Map(MemberName, members[1..]))
    requires forall i :: 0 < i < |members| ==> members[i].name != members[0].name
    ensures NoRepeats(Map(MemberName, members))
  {
    var names, rest := Map(MemberName, members), Map(MemberName, members[1..]);
    assert forall i :: 0 < i < |names| ==> names[i] == rest[i - 1];
  }
}
