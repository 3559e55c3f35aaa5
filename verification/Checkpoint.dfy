/** Saving an advisory episode as canonical JSON text and restoring it. */
module Checkpoint {
  import opened Ordering
  import opened Text
  import Json
  import JsonText
  import JsonGrammar
  import opened StrictJson

  datatype TechnicalState = Active | TechnicallyResolved

  datatype WorkState = Open | Investigating | Resolved | Dismissed

  datatype Episode = Episode(
    episodeId: Str, technicalState: TechnicalState, workState: WorkState, workflowVersion: int, revisionId: Str)

  const CHECKPOINT_SCHEMA: Str := U("ephi.advisory.checkpoint")
  const CHECKPOINT_VERSION := 1

  const F_SCHEMA: Str := U("checkpoint_schema")
  const F_VERSION: Str := U("checkpoint_version")
  const F_WORK: Str := U("engineering_work_state")
  const F_EPISODE: Str := U("episode_id")
  const F_REVISION: Str := U("revision_id")
  const F_TECHNICAL: Str := U("technical_state")
  const F_WORKFLOW: Str := U("workflow_version")

  /** `_CHECKPOINT_FIELDS` */
  const FIELDS: set<Str> := {F_SCHEMA, F_VERSION, F_WORK, F_EPISODE, F_REVISION, F_TECHNICAL, F_WORKFLOW}

  /** The field names in the order Python sorts them. */
  const SORTED_FIELDS: seq<Str> := [F_SCHEMA, F_VERSION, F_WORK, F_EPISODE, F_REVISION, F_TECHNICAL, F_WORKFLOW]

  function TechnicalText(s: TechnicalState): Str {
    match s case Active => U("ACTIVE") case TechnicallyResolved => U("RESOLVED")
  }

  function WorkText(s: WorkState): Str {
    match s
    case Open => U("OPEN")
    case Investigating => U("INVESTIGATING")
    case Resolved => U("RESOLVED")
    case Dismissed => U("DISMISSED")
  }

  /** `TechnicalEpisodeState(value)` */
  function TechnicalOf(d: Decoded): Option<TechnicalState> {
    if d == StringValue(TechnicalText(Active)) then Some(Active)
    else if d == StringValue(TechnicalText(TechnicallyResolved)) then Some(TechnicallyResolved)
    else None
  }

  /** `EngineeringWorkState(value)` */
  function WorkOf(d: Decoded): Option<WorkState> {
    if d == StringValue(WorkText(Open)) then Some(Open)
    else if d == StringValue(WorkText(Investigating)) then Some(Investigating)
    else if d == StringValue(WorkText(Resolved)) then Some(Resolved)
    else if d == StringValue(WorkText(Dismissed)) then Some(Dismissed)
    else None
  }

  /** `revision_identity` */
  function RevisionIdentity(episodeId: Str, version: int): Str {
    episodeId + U(":workflow:") + Json.IntText(version)
  }

  /** What the constructor of the episode enforces. */
  predicate Coherent(e: Episode) {
    && !IsBlank(e.episodeId) && e.workflowVersion >= 0 && e.revisionId != []
    && e.revisionId == RevisionIdentity(e.episodeId, e.workflowVersion)
  }

  // ---- saving --------------------------------------------------------------------------------------

  /** The payload in the order the source builds it. */
  function PayloadMembers(e: Episode): seq<Json.Member> {
    [
      Json.Member(F_SCHEMA, Json.String(CHECKPOINT_SCHEMA)),
      Json.Member(F_VERSION, Json.Int(CHECKPOINT_VERSION)),
      Json.Member(F_EPISODE, Json.String(e.episodeId)),
      Json.Member(F_TECHNICAL, Json.String(TechnicalText(e.technicalState))),
      Json.Member(F_WORK, Json.String(WorkText(e.workState))),
      Json.Member(F_WORKFLOW, Json.Int(e.workflowVersion)),
      Json.Member(F_REVISION, Json.String(e.revisionId))
    ]
  }

  predicate NameLess(a: Json.Member, b: Json.Member) { StrLess(a.name, b.name) }

  /** `serialize_checkpoint` */
  function SerializeCheckpoint(e: Episode): Str {
    Json.Print(Json.Object(Sort(NameLess, PayloadMembers(e))), Json.COMPACT)
  }

  // ---- restoring -----------------------------------------------------------------------------------

  datatype Key = Name(name: Str) | OtherKey(id: int)

  datatype Payload = TextPayload(text: Str) | MappingPayload(fields: map<Key, Decoded>) | OtherPayload

  datatype CheckpointError =
    | MalformedPayload | IncompleteAuthority(missing: seq<Str>) | UnsupportedSchema | UnsupportedVersion
    | InvalidIdentity | IdentityMismatch | InvalidState | InvalidWorkflowVersion | InvalidRevision | IncoherentState

  datatype Outcome = Restored(episode: Episode) | Rejected(error: CheckpointError)

  /** `_decode`, together with the check that every field name is a string. */
  function Decode(payload: Payload): Option<map<Str, Decoded>> {
    match payload
    case OtherPayload => None
    case MappingPayload(fields) =>
      if exists k :: k in fields && k.OtherKey? then None
      else Some(map k | k in fields :: k.name := fields[k])
    case TextPayload(text) =>
      match Json.Loads(text)
      case None => None
      case Some(v) =>
        match Build(v)
        case None => None
        case Some(d) => if d.DictValue? then Some(d.fields) else None
  }

  /** The members of `names` that `keys` lacks, in order. */
  function Lacking(names: seq<Str>, keys: set<Str>): (r: seq<Str>)
    ensures forall n :: n in r <==> n in names && n !in keys
  {
    if names == [] then [] else (if names[0] in keys then [] else [names[0]]) + Lacking(names[1..], keys)
  }

  function RestoreFields(d: map<Str, Decoded>, expectedId: Option<Str>): Outcome {
    var missing := Lacking(SORTED_FIELDS, d.Keys);
    if missing != [] then Rejected(IncompleteAuthority(missing))
    else if d.Keys - FIELDS != {} then Rejected(MalformedPayload)
    else if d[F_SCHEMA] != StringValue(CHECKPOINT_SCHEMA) then Rejected(UnsupportedSchema)
    else if d[F_VERSION] != IntValue(CHECKPOINT_VERSION) then Rejected(UnsupportedVersion)
    else if !d[F_EPISODE].StringValue? || IsBlank(d[F_EPISODE].text) then Rejected(InvalidIdentity)
    else if expectedId.Some? && d[F_EPISODE].text != expectedId.value then Rejected(IdentityMismatch)
    else if TechnicalOf(d[F_TECHNICAL]).None? || WorkOf(d[F_WORK]).None? then Rejected(InvalidState)
    else if !d[F_WORKFLOW].IntValue? || d[F_WORKFLOW].n < 0 then Rejected(InvalidWorkflowVersion)
    else if !d[F_REVISION].StringValue? || d[F_REVISION].text == [] then Rejected(InvalidRevision)
    else
      var e := Episode(d[F_EPISODE].text, TechnicalOf(d[F_TECHNICAL]).value, WorkOf(d[F_WORK]).value, d[F_WORKFLOW].n,
        d[F_REVISION].text);
      if Coherent(e) then Restored(e) else Rejected(IncoherentState)
  }

  /** `restore_checkpoint` */
  function RestoreCheckpoint(payload: Payload, expectedId: Option<Str>): Outcome {
    match Decode(payload)
    case None => Rejected(MalformedPayload)
    case Some(d) => RestoreFields(d, expectedId)
  }

  // ---- what is accepted ----------------------------------------------------------------------------

  /** The dictionary an episode is saved as. */
  function FieldsOf(e: Episode): map<Str, Decoded> {
    map[
      F_SCHEMA := StringValue(CHECKPOINT_SCHEMA),
      F_VERSION := IntValue(CHECKPOINT_VERSION),
      F_EPISODE := StringValue(e.episodeId),
      F_TECHNICAL := StringValue(TechnicalText(e.technicalState)),
      F_WORK := StringValue(WorkText(e.workState)),
      F_WORKFLOW := IntValue(e.workflowVersion),
      F_REVISION := StringValue(e.revisionId)
    ]
  }

  lemma FieldNamesDistinct()
    ensures NoRepeats(SORTED_FIELDS) && (forall n :: n in SORTED_FIELDS <==> n in FIELDS)
  {
  }

  /** What the dictionary of an episode holds under each name. */
  lemma FieldLookups(e: Episode)
    ensures var d := FieldsOf(e);
      && d.Keys == FIELDS
      && d[F_SCHEMA] == StringValue(CHECKPOINT_SCHEMA) && d[F_VERSION] == IntValue(CHECKPOINT_VERSION)
      && d[F_EPISODE] == StringValue(e.episodeId) && d[F_TECHNICAL] == StringValue(TechnicalText(e.technicalState))
      && d[F_WORK] == StringValue(WorkText(e.workState)) && d[F_WORKFLOW] == IntValue(e.workflowVersion)
      && d[F_REVISION] == StringValue(e.revisionId)
  {
  }

  lemma LackingNothing(names: seq<Str>, keys: set<Str>)
    ensures Lacking(names, keys) == [] <==> forall n :: n in names ==> n in keys
  {
  }

  lemma SameDictionary(d: map<Str, Decoded>, f: map<Str, Decoded>)
    requires d.Keys == FIELDS && f.Keys == FIELDS
    requires d[F_SCHEMA] == f[F_SCHEMA] && d[F_VERSION] == f[F_VERSION] && d[F_WORK] == f[F_WORK]
      && d[F_EPISODE] == f[F_EPISODE]
    requires d[F_REVISION] == f[F_REVISION] && d[F_TECHNICAL] == f[F_TECHNICAL] && d[F_WORKFLOW] == f[F_WORKFLOW]
    ensures d == f
  {
  }

  lemma RestoredFields(d: map<Str, Decoded>, expectedId: Option<Str>, e: Episode)
    requires RestoreFields(d, expectedId) == Restored(e)
    ensures d == FieldsOf(e) && Coherent(e) && (expectedId.Some? ==> expectedId.value == e.episodeId)
  {
    hide RevisionIdentity, IsBlank, Lacking, U, FieldsOf, TechnicalText, WorkText, TechnicalOf, WorkOf;
    LackingNothing(SORTED_FIELDS, d.Keys);
    FieldNamesDistinct();
    FieldLookups(e);
    StateValues(d[F_TECHNICAL], d[F_WORK]);
    SameDictionary(d, FieldsOf(e));
  }

  lemma FieldsRestored(expectedId: Option<Str>, e: Episode)
    requires Coherent(e) && (expectedId.Some? ==> expectedId.value == e.episodeId)
    ensures RestoreFields(FieldsOf(e), expectedId) == Restored(e)
  {
    hide RevisionIdentity, IsBlank, Lacking, U, FieldsOf, TechnicalText, WorkText, TechnicalOf, WorkOf, SORTED_FIELDS;
    LackingNothing(SORTED_FIELDS, FieldsOf(e).Keys);
    FieldNamesDistinct();
    FieldLookups(e);
    StateTexts(e);
    assert FieldsOf(e).Keys - FIELDS == {};
  }

  lemma DictionarySpelled(e: Episode)
    ensures FieldsOf(e) == map[
      U("checkpoint_schema") := StringValue(U("ephi.advisory.checkpoint")),
      U("checkpoint_version") := IntValue(1),
      U("engineering_work_state") := StringValue(U(match e.workState
          case Open => "OPEN" case Investigating => "INVESTIGATING" case Resolved => "RESOLVED"
          case Dismissed => "DISMISSED")),
      U("episode_id") := StringValue(e.episodeId),
      U("revision_id") := StringValue(e.revisionId),
      U("technical_state") := StringValue(
        U(match e.technicalState case Active => "ACTIVE" case TechnicallyResolved => "RESOLVED")),
      U("workflow_version") := IntValue(e.workflowVersion)]
  {
    FieldLookups(e);
  }

  /**
   * A dictionary restores to an episode exactly when it holds these seven entries and no other, the identifier is not
   * blank, the version not negative, the revision the one of both, and the episode the expected one.
   */
  lemma AcceptedFields(d: map<Str, Decoded>, expectedId: Option<Str>, e: Episode)
    ensures RestoreFields(d, expectedId) == Restored(e) <==>
      && d == map[
           U("checkpoint_schema") := StringValue(U("ephi.advisory.checkpoint")),
           U("checkpoint_version") := IntValue(1),
           U("engineering_work_state") := StringValue(U(match e.workState
              case Open => "OPEN" case Investigating => "INVESTIGATING" case Resolved => "RESOLVED"
              case Dismissed => "DISMISSED")),
           U("episode_id") := StringValue(e.episodeId),
           U("revision_id") := StringValue(e.revisionId),
           U("technical_state") := StringValue(
             U(match e.technicalState case Active => "ACTIVE" case TechnicallyResolved => "RESOLVED")),
           U("workflow_version") := IntValue(e.workflowVersion)]
      && (exists i :: 0 <= i < |e.episodeId| && !IsSpace(e.episodeId[i])) && e.workflowVersion >= 0
      && e.revisionId == e.episodeId + U(":workflow:") + Json.IntText(e.workflowVersion)
      && (expectedId == None || expectedId == Some(e.episodeId))
  {
    AcceptedDictionary(d, expectedId, e);
    hide RestoreFields, FieldsOf, U, IsSpace;
    DictionarySpelled(e);
    RevisionIsText(e);
  }

  lemma RevisionIsText(e: Episode)
    ensures RevisionIdentity(e.episodeId, e.workflowVersion) != []
  {
    assert |U(":workflow:")| == 10;
  }

  lemma AcceptedDictionary(d: map<Str, Decoded>, expectedId: Option<Str>, e: Episode)
    ensures RestoreFields(d, expectedId) == Restored(e) <==>
      d == FieldsOf(e) && Coherent(e) && (expectedId.Some? ==> expectedId.value == e.episodeId)
  {
    hide RestoreFields, FieldsOf, Coherent;
    if RestoreFields(d, expectedId) == Restored(e) {
      RestoredFields(d, expectedId, e);
    }
    if Coherent(e) && (expectedId.Some? ==> expectedId.value == e.episodeId) {
      FieldsRestored(expectedId, e);
    }
  }

  lemma StateValues(t: Decoded, w: Decoded)
    ensures TechnicalOf(t).Some? ==> t == StringValue(TechnicalText(TechnicalOf(t).value))
    ensures WorkOf(w).Some? ==> w == StringValue(WorkText(WorkOf(w).value))
  {
  }

  lemma StateTexts(e: Episode)
    ensures TechnicalOf(StringValue(TechnicalText(e.technicalState))) == Some(e.technicalState)
    ensures WorkOf(StringValue(WorkText(e.workState))) == Some(e.workState)
  {
  }

  // ---- the round trip ------------------------------------------------------------------------------

  function Scalar(v: Json.Raw): Decoded {
    match v case String(text) => StringValue(text) case Int(n) => IntValue(n) case _ => NullValue
  }

  const BUILD_ORDER: seq<Str> := [F_SCHEMA, F_VERSION, F_EPISODE, F_TECHNICAL, F_WORK, F_WORKFLOW, F_REVISION]

  lemma BuildOrderDistinct()
    ensures NoRepeats(BUILD_ORDER) && (forall n :: n in FIELDS <==> n in BUILD_ORDER)
  {
  }

  /** The member is a string or an integer, and `fields` holds it under its name. */
  predicate ScalarIn(m: Json.Member, fields: map<Str, Decoded>) {
    (m.value.String? || m.value.Int?) && m.name in fields && fields[m.name] == Scalar(m.value)
  }

  /** `fields` is the dictionary of these scalar members, whose names are distinct. */
  ghost predicate ScalarDict(members: seq<Json.Member>, fields: map<Str, Decoded>) {
    && NoRepeats(Map(MemberName, members))
    && (forall i :: 0 <= i < |members| ==> ScalarIn(members[i], fields))
    && (forall n :: n in fields ==> exists i :: 0 <= i < |members| && members[i].name == n)
  }

  lemma PayloadIsFields(e: Episode)
    ensures ScalarDict(PayloadMembers(e), FieldsOf(e))
  {
    hide PayloadMembers, FieldsOf, FIELDS, U, ScalarIn;
    var ms := PayloadMembers(e);
    BuildOrder(e);
    assert |ms| == |BUILD_ORDER|;
    BuildOrderDistinct();
    PayloadScalars(e);
    FieldLookups(e);
    forall n | n in FieldsOf(e) ensures exists i :: 0 <= i < |ms| && ms[i].name == n {
      var j :| 0 <= j < |BUILD_ORDER| && BUILD_ORDER[j] == n;
      assert ms[j].name == n;
    }
  }

  lemma PayloadScalars(e: Episode)
    ensures forall i :: 0 <= i < 7 ==> ScalarIn(PayloadMembers(e)[i], FieldsOf(e))
  {
  }

  lemma ScalarDictPermutation(ms: seq<Json.Member>, members: seq<Json.Member>, fields: map<Str, Decoded>)
    requires multiset(members) == multiset(ms) && ScalarDict(ms, fields)
    ensures ScalarDict(members, fields)
  {
    SameElements(members, ms);
    MapPermutation(MemberName, ms, members);
    PermutationDistinct(Map(MemberName, ms), Map(MemberName, members));
    forall i | 0 <= i < |members| ensures ScalarIn(members[i], fields) {
      assert members[i] in ms;
    }
    forall n | n in fields ensures exists i :: 0 <= i < |members| && members[i].name == n {
      var j :| 0 <= j < |ms| && ms[j].name == n;
      assert ms[j] in members;
    }
  }

  lemma ScalarShape(members: seq<Json.Member>, fields: map<Str, Decoded>)
    requires ScalarDict(members, fields)
    ensures Json.Printable(Json.Object(members), false) && NoDuplicates(Json.Object(members))
  {
  }

  lemma ScalarsMirrored(members: seq<Json.Member>, fields: map<Str, Decoded>, d: Decoded)
    requires ScalarDict(members, fields) && Mirrors(Json.Object(members), d)
    ensures d == DictValue(fields)
  {
    forall i | 0 <= i < |members|
      ensures members[i].name in d.fields && d.fields[members[i].name] == Scalar(members[i].value)
    {
      var m := members[i];
      assert MirrorsMember(m, d.fields) && ScalarIn(m, fields);
      ScalarMirror(m.value, d.fields[m.name]);
    }
    forall n | n in d.fields ensures n in fields && d.fields[n] == fields[n] {
      var i :| 0 <= i < |members| && members[i].name == n;
      assert ScalarIn(members[i], fields);
    }
    forall n | n in fields ensures n in d.fields {
      var i :| 0 <= i < |members| && members[i].name == n;
    }
  }

  lemma ScalarMirror(v: Json.Raw, d: Decoded)
    requires (v.String? || v.Int?) && Mirrors(v, d)
    ensures d == Scalar(v)
  {
  }

  /** The members of the payload, printed in any order, decode to the episode's dictionary. */
  lemma AnyOrderDecodes(e: Episode, members: seq<Json.Member>)
    requires multiset(members) == multiset(PayloadMembers(e))
    ensures Decode(TextPayload(Json.Print(Json.Object(members), Json.COMPACT))) == Some(FieldsOf(e))
  {
    hide Json.Print, Json.Loads, Build, U, PayloadMembers, FieldsOf, Mirrors, NoDuplicates, ScalarDict;
    var v := Json.Object(members);
    PayloadIsFields(e);
    ScalarDictPermutation(PayloadMembers(e), members, FieldsOf(e));
    ScalarShape(members, FieldsOf(e));
    Json.TextRoundTrip(v, Json.COMPACT);
    DuplicatesRejected(v);
    ScalarsMirrored(members, FieldsOf(e), Build(v).value);
  }

  lemma SerializedDecodes(e: Episode)
    ensures Decode(TextPayload(SerializeCheckpoint(e))) == Some(FieldsOf(e))
  {
    hide Decode, PayloadMembers;
    SortKeepsElements(NameLess, PayloadMembers(e));
    AnyOrderDecodes(e, Sort(NameLess, PayloadMembers(e)));
  }

  /** Restoring a saved episode gives it back, whatever its identifiers hold. */
  lemma CheckpointRoundTrip(e: Episode, expectedId: Option<Str>)
    requires Coherent(e) && (expectedId.Some? ==> expectedId.value == e.episodeId)
    ensures RestoreCheckpoint(TextPayload(SerializeCheckpoint(e)), expectedId) == Restored(e)
  {
    hide Decode, SerializeCheckpoint, RestoreFields, FieldsOf, Coherent;
    SerializedDecodes(e);
    AcceptedDictionary(FieldsOf(e), expectedId, e);
  }

  /** The fields of a checkpoint text may come in any order. */
  lemma FieldOrderIrrelevant(e: Episode, members: seq<Json.Member>)
    requires Coherent(e) && multiset(members) == multiset(PayloadMembers(e))
    ensures RestoreCheckpoint(TextPayload(Json.Print(Json.Object(members), Json.COMPACT)), None) == Restored(e)
  {
    hide Decode, Json.Print, RestoreFields, FieldsOf, Coherent, PayloadMembers;
    AnyOrderDecodes(e, members);
    AcceptedDictionary(FieldsOf(e), None, e);
  }

  /** Different coherent episodes have different texts. */
  lemma SerializationInjective(e: Episode, f: Episode)
    requires Coherent(e) && Coherent(f) && SerializeCheckpoint(e) == SerializeCheckpoint(f)
    ensures e == f
  {
    hide Coherent, SerializeCheckpoint, RestoreCheckpoint;
    CheckpointRoundTrip(e, None);
    CheckpointRoundTrip(f, None);
  }

  /**
   * Every accepted payload has one canonical text, which restores to the same episode; two share it exactly when they
   * restore to equal episodes.
   */
  lemma NormalForm(p: Payload, q: Payload, x: Option<Str>, y: Option<Str>)
    ensures var r, o := RestoreCheckpoint(p, x), RestoreCheckpoint(q, y);
      && (r.Restored? ==> RestoreCheckpoint(TextPayload(SerializeCheckpoint(r.episode)), x) == r)
      && (r.Restored? && o.Restored? ==> (SerializeCheckpoint(r.episode) == SerializeCheckpoint(o.episode) <==> r == o))
  {
    hide Coherent, SerializeCheckpoint, Decode, RestoreFields, FieldsOf;
    var r, o := RestoreCheckpoint(p, x), RestoreCheckpoint(q, y);
    if r.Restored? {
      AcceptedDictionary(Decode(p).value, x, r.episode);
      CheckpointRoundTrip(r.episode, x);
      if o.Restored? {
        AcceptedDictionary(Decode(q).value, y, o.episode);
        if SerializeCheckpoint(r.episode) == SerializeCheckpoint(o.episode) {
          SerializationInjective(r.episode, o.episode);
        }
      }
    }
  }

  // ---- what is rejected ----------------------------------------------------------------------------

  lemma {:induction false} LackingAscends(names: seq<Str>, keys: set<Str>)
    requires Increasing(StrLess, names)
    ensures Increasing(StrLess, Lacking(names, keys))
  {
    hide StrLess;
    if names != [] {
      LackingAscends(names[1..], keys);
      var rest := Lacking(names[1..], keys);
      forall j | 0 <= j < |rest| ensures StrLess(names[0], rest[j]) {
        assert rest[j] in names[1..];
        var k :| 0 <= k < |names[1..]| && names[1..][k] == rest[j];
        assert names[k + 1] == rest[j];
      }
    }
  }

  lemma LiteralLess(prefix: string, a: string, b: string)
    requires a != "" && b != "" && a[0] as int < b[0] as int
    ensures StrLess(U(prefix + a), U(prefix + b))
  {
    assert U(prefix + a) == U(prefix) + U(a) && U(prefix + b) == U(prefix) + U(b);
    LexPrefix(CodeLess, U(prefix), U(a), U(b));
  }

  lemma FirstLetterLess(a: string, b: string)
    requires a != "" && b != "" && a[0] as int < b[0] as int
    ensures StrLess(U(a), U(b))
  {
  }

  lemma SchemaBeforeVersion()
    ensures StrLess(F_SCHEMA, F_VERSION)
  {
    hide StrLess, U;
    LiteralLess("checkpoint_", "schema", "version");
    assert "checkpoint_" + "schema" == "checkpoint_schema" && "checkpoint_" + "version" == "checkpoint_version";
  }

  lemma WorkBeforeEpisode()
    ensures StrLess(F_WORK, F_EPISODE)
  {
  }

  lemma FieldsAreSorted()
    ensures Increasing(StrLess, SORTED_FIELDS)
  {
    hide StrLess, U;
    SchemaBeforeVersion();
    WorkBeforeEpisode();
    FirstLetterLess("checkpoint_version", "engineering_work_state");
    FirstLetterLess("episode_id", "revision_id");
    FirstLetterLess("revision_id", "technical_state");
    FirstLetterLess("technical_state", "workflow_version");
    Chain7(F_SCHEMA, F_VERSION, F_WORK, F_EPISODE, F_REVISION, F_TECHNICAL, F_WORKFLOW);
  }

  lemma Chain7(a: Str, b: Str, c: Str, d: Str, e: Str, f: Str, g: Str)
    requires StrLess(a, b) && StrLess(b, c) && StrLess(c, d) && StrLess(d, e) && StrLess(e, f) && StrLess(f, g)
    ensures Increasing(StrLess, [a, b, c, d, e, f, g])
  {
    hide StrLess;
    StrOrder();
  }

  /** The saved text lists the fields in ascending name order. */
  lemma SavedFieldsAscend(e: Episode)
    ensures Map(MemberName, Sort(NameLess, PayloadMembers(e))) == SORTED_FIELDS
  {
    hide PayloadMembers, BUILD_ORDER, SORTED_FIELDS, FIELDS, StrLess, NoRepeats, Increasing, U;
    StrOrder();
    FieldsAreSorted();
    FieldNamesDistinct();
    BuildOrderDistinct();
    BuildOrder(e);
    SortedNamesAscend(PayloadMembers(e));
    var names := Map(MemberName, Sort(NameLess, PayloadMembers(e)));
    SameElements(names, BUILD_ORDER);
    IncreasingUnique(StrLess, names, SORTED_FIELDS);
  }

  lemma BuildOrder(e: Episode)
    ensures Map(MemberName, PayloadMembers(e)) == BUILD_ORDER
  {
  }

  lemma NameOrder()
    ensures StrictPartial(NameLess)
    ensures forall a: Json.Member, b: Json.Member :: a.name != b.name ==> NameLess(a, b) || NameLess(b, a)
  {
    hide StrLess;
    StrOrder();
  }

  /** Members with distinct names, sorted by name, have ascending names, and still the same ones. */
  lemma SortedNamesAscend(ms: seq<Json.Member>)
    requires NoRepeats(Map(MemberName, ms))
    ensures Increasing(StrLess, Map(MemberName, Sort(NameLess, ms)))
    ensures multiset(Map(MemberName, Sort(NameLess, ms))) == multiset(Map(MemberName, ms))
  {
    hide NameLess;
    NameOrder();
    SortKeepsElements(NameLess, ms);
    MapPermutation(MemberName, ms, Sort(NameLess, ms));
    var given := Map(MemberName, ms);
    forall i, j | 0 <= i < |ms| && 0 <= j < |ms| && i != j ensures ms[i].name != ms[j].name {
      assert given[i] != given[j];
    }
    SortIncreasing(NameLess, ms);
    NamesOfSorted(Sort(NameLess, ms));
  }

  lemma NamesOfSorted(ms: seq<Json.Member>)
    requires Increasing(NameLess, ms)
    ensures Increasing(StrLess, Map(MemberName, ms))
  {
  }

  // ---- the saved text ------------------------------------------------------------------------------

  /** A text as a saved checkpoint has it. */
  function Saved(m: Json.Member): Str {
    JsonText.WrittenMember(Json.COMPACT)(m)
  }

  /** A member whose name is written as it is. */
  lemma MemberText(name: string, v: Json.Raw, text: string)
    requires JsonText.PlainLiteral(name) && text == "\"" + name + "\":"
    ensures Saved(Json.Member(U(name), v)) == U(text) + Json.Print(v, Json.COMPACT)
  {
    JsonText.QuotedLiteral(name, false, "\"" + name + "\"");
    assert "\"" + name + "\":" == "\"" + name + "\"" + ":";
    hide U, Json.Print, Json.Quoted;
    Joined("\"" + name + "\"", ":");
  }

  /** The members in the order they are saved. */
  function SavedMembers(e: Episode): seq<Json.Member> {
    [
      Json.Member(F_SCHEMA, Json.String(CHECKPOINT_SCHEMA)),
      Json.Member(F_VERSION, Json.Int(CHECKPOINT_VERSION)),
      Json.Member(F_WORK, Json.String(WorkText(e.workState))),
      Json.Member(F_EPISODE, Json.String(e.episodeId)),
      Json.Member(F_REVISION, Json.String(e.revisionId)),
      Json.Member(F_TECHNICAL, Json.String(TechnicalText(e.technicalState))),
      Json.Member(F_WORKFLOW, Json.Int(e.workflowVersion))
    ]
  }

  lemma SavedInOrder(e: Episode)
    ensures Sort(NameLess, PayloadMembers(e)) == SavedMembers(e)
  {
    hide U, NameLess, WorkText, TechnicalText;
    var ms, names := Sort(NameLess, PayloadMembers(e)), SORTED_FIELDS;
    SavedFieldsAscend(e);
    SortElements(NameLess, PayloadMembers(e));
    FieldNamesDistinct();
    assert |ms| == |names| == 7;
    forall i | 0 <= i < 7 ensures ms[i] == SavedMembers(e)[i] {
      assert ms[i] in ms && ms[i].name == names[i] && SavedMembers(e)[i].name == names[i];
      assert SavedMembers(e)[i] in PayloadMembers(e);
      OneMemberPerName(e, ms[i], SavedMembers(e)[i]);
    }
  }

  lemma OneMemberPerName(e: Episode, a: Json.Member, b: Json.Member)
    requires a in PayloadMembers(e) && b in PayloadMembers(e) && a.name == b.name
    ensures a == b
  {
    hide U, PayloadMembers, WorkText, TechnicalText, BUILD_ORDER;
    BuildOrder(e);
    BuildOrderDistinct();
    var ms := PayloadMembers(e);
    var i :| 0 <= i < |ms| && ms[i] == a;
    var j :| 0 <= j < |ms| && ms[j] == b;
    assert Map(MemberName, ms)[i] == Map(MemberName, ms)[j];
  }

  /** The seven members of a saved text. */
  function SavedTexts(e: Episode): seq<Str> {
    [
      U("\"checkpoint_schema\":\"ephi.advisory.checkpoint\""),
      U("\"checkpoint_version\":1"),
      U("\"engineering_work_state\":") + (match e.workState
        case Open => U("\"OPEN\"") case Investigating => U("\"INVESTIGATING\"")
        case Resolved => U("\"RESOLVED\"") case Dismissed => U("\"DISMISSED\"")),
      U("\"episode_id\":") + Json.Quoted(e.episodeId, false),
      U("\"revision_id\":") + Json.Quoted(e.revisionId, false),
      U("\"technical_state\":") + (match e.technicalState
        case Active => U("\"ACTIVE\"") case TechnicallyResolved => U("\"RESOLVED\"")),
      U("\"workflow_version\":") + Json.IntText(e.workflowVersion)
    ]
  }

  lemma ValueText(value: string, text: string)
    requires text == "\"" + value + "\"" && JsonText.PlainLiteral(value)
    ensures Json.Print(Json.String(U(value)), Json.COMPACT) == U(text)
  {
    JsonText.QuotedLiteral(value, false, text);
  }

  lemma PlainNames()
    ensures JsonText.PlainLiteral("checkpoint_schema") && JsonText.PlainLiteral("checkpoint_version")
    ensures JsonText.PlainLiteral("engineering_work_state") && JsonText.PlainLiteral("technical_state")
    ensures JsonText.PlainLiteral("episode_id") && JsonText.PlainLiteral("revision_id")
    ensures JsonText.PlainLiteral("workflow_version")
  {
  }

  lemma PlainValues()
    ensures JsonText.PlainLiteral("ephi.advisory.checkpoint") && JsonText.PlainLiteral("ACTIVE")
    ensures JsonText.PlainLiteral("OPEN") && JsonText.PlainLiteral("INVESTIGATING") && JsonText.PlainLiteral("RESOLVED")
    ensures JsonText.PlainLiteral("DISMISSED")
  {
  }

  lemma SchemaText()
    ensures Saved(Json.Member(F_SCHEMA, Json.String(CHECKPOINT_SCHEMA)))
      == U("\"checkpoint_schema\":\"ephi.advisory.checkpoint\"")
  {
    PlainNames();
    PlainValues();
    hide U, Json.Print, Saved, JsonText.PlainLiteral;
    MemberText("checkpoint_schema", Json.String(CHECKPOINT_SCHEMA), "\"checkpoint_schema\":");
    ValueText("ephi.advisory.checkpoint", "\"ephi.advisory.checkpoint\"");
    Joined("\"checkpoint_schema\":", "\"ephi.advisory.checkpoint\"");
    SchemaLiteral();
  }

  lemma SchemaLiteral()
    ensures "\"checkpoint_schema\":" + "\"ephi.advisory.checkpoint\""
      == "\"checkpoint_schema\":\"ephi.advisory.checkpoint\""
  {
  }

  lemma VersionText()
    ensures Saved(Json.Member(F_VERSION, Json.Int(CHECKPOINT_VERSION)))
      == U("\"checkpoint_version\":1")
  {
    PlainNames();
    OneText();
    hide U, Saved, JsonText.PlainLiteral, Json.IntText;
    MemberText("checkpoint_version", Json.Int(1), "\"checkpoint_version\":");
    Joined("\"checkpoint_version\":", "1");
    assert "\"checkpoint_version\":" + "1" == "\"checkpoint_version\":1";
  }

  lemma OneText()
    ensures Json.IntText(1) == U("1")
  {
  }

  lemma WorkStateText(e: Episode)
    ensures Saved(SavedMembers(e)[2]) == SavedTexts(e)[2]
  {
    PlainNames();
    PlainValues();
    hide U, Json.Print, Saved, JsonText.PlainLiteral;
    MemberText("engineering_work_state", Json.String(WorkText(e.workState)), "\"engineering_work_state\":");
    match e.workState
    case Open => ValueText("OPEN", "\"OPEN\"");
    case Investigating => ValueText("INVESTIGATING", "\"INVESTIGATING\"");
    case Resolved => ValueText("RESOLVED", "\"RESOLVED\"");
    case Dismissed => ValueText("DISMISSED", "\"DISMISSED\"");
  }

  lemma TechnicalStateText(e: Episode)
    ensures Saved(SavedMembers(e)[5]) == SavedTexts(e)[5]
  {
    PlainNames();
    PlainValues();
    hide U, Json.Print, Saved, JsonText.PlainLiteral;
    MemberText("technical_state", Json.String(TechnicalText(e.technicalState)), "\"technical_state\":");
    match e.technicalState
    case Active => ValueText("ACTIVE", "\"ACTIVE\"");
    case TechnicallyResolved => ValueText("RESOLVED", "\"RESOLVED\"");
  }

  lemma OtherTexts(e: Episode)
    ensures Saved(SavedMembers(e)[3]) == SavedTexts(e)[3]
    ensures Saved(SavedMembers(e)[4]) == SavedTexts(e)[4]
    ensures Saved(SavedMembers(e)[6]) == SavedTexts(e)[6]
  {
    PlainNames();
    hide U, Saved, Json.Quoted, Json.IntText, JsonText.PlainLiteral;
    MemberText("episode_id", Json.String(e.episodeId), "\"episode_id\":");
    MemberText("revision_id", Json.String(e.revisionId), "\"revision_id\":");
    MemberText("workflow_version", Json.Int(e.workflowVersion), "\"workflow_version\":");
  }

  /** The saved text, character by character but for the identifiers and the number. */
  lemma SavedText(e: Episode)
    ensures SerializeCheckpoint(e) == U("{") + JsonText.Separated(SavedTexts(e), U(",")) + U("}")
  {
    var ms := SavedMembers(e);
    JsonText.TextMeaning(Json.Object(ms), Json.COMPACT);
    hide U, Json.Print, JsonText.Separated, NameLess, JsonText.WrittenMember;
    SavedInOrder(e);
    SchemaText();
    VersionText();
    WorkStateText(e);
    TechnicalStateText(e);
    OtherTexts(e);
    assert Map(JsonText.WrittenMember(Json.COMPACT), ms) == SavedTexts(e);
    assert U(",") + [] == U(",");
  }

  /** With all fields there, what a payload is rejected for first. */
  lemma FirstObjection(d: map<Str, Decoded>, x: Option<Str>)
    requires {U("checkpoint_schema"), U("checkpoint_version"), U("engineering_work_state"), U("episode_id"),
      U("revision_id"), U("technical_state"), U("workflow_version")} <= d.Keys
    ensures var id, version := d[U("episode_id")], d[U("workflow_version")];
      var work, technical := d[U("engineering_work_state")], d[U("technical_state")];
      var r := RestoreFields(d, x);
      if |d.Keys| != 7 then r == Rejected(MalformedPayload)
      else if d[U("checkpoint_schema")] != StringValue(U("ephi.advisory.checkpoint")) then
        r == Rejected(UnsupportedSchema)
      else if d[U("checkpoint_version")] != IntValue(1) then r == Rejected(UnsupportedVersion)
      else if !id.StringValue? || (forall c :: c in id.text ==> IsSpace(c)) then r == Rejected(InvalidIdentity)
      else if x.Some? && x.value != id.text then r == Rejected(IdentityMismatch)
      else if technical !in {StringValue(U("ACTIVE")), StringValue(U("RESOLVED"))}
        || work !in {StringValue(U("OPEN")), StringValue(U("INVESTIGATING")), StringValue(U("RESOLVED")),
                     StringValue(U("DISMISSED"))}
      then r == Rejected(InvalidState)
      else if !version.IntValue? || version.n < 0 then r == Rejected(InvalidWorkflowVersion)
      else if d[U("revision_id")] == StringValue([]) || !d[U("revision_id")].StringValue? then
        r == Rejected(InvalidRevision)
      else r.Restored? || r == Rejected(IncoherentState)
  {
    hide U, IsSpace, RevisionIdentity, FIELDS, SORTED_FIELDS, TechnicalOf, WorkOf;
    FieldsSpelled();
    NothingMissing(d);
    StatesSpelled(d[F_TECHNICAL], d[F_WORK]);
    if d.Keys - FIELDS == {} {
      assert d.Keys == FIELDS;
      FieldCount();
    } else {
      MoreThanSeven(d.Keys);
    }
    BlankMeaning(d[F_EPISODE]);
  }

  lemma BlankMeaning(d: Decoded)
    ensures d.StringValue? ==> (IsBlank(d.text) <==> forall c :: c in d.text ==> IsSpace(c))
  {
    hide IsSpace;
  }

  lemma FieldsSpelled()
    ensures FIELDS == {U("checkpoint_schema"), U("checkpoint_version"), U("engineering_work_state"), U("episode_id"),
      U("revision_id"), U("technical_state"), U("workflow_version")}
  {
    hide U;
  }

  lemma NothingMissing(d: map<Str, Decoded>)
    requires FIELDS <= d.Keys
    ensures Lacking(SORTED_FIELDS, d.Keys) == []
  {
    hide FIELDS, SORTED_FIELDS;
    FieldNamesDistinct();
    LackingNothing(SORTED_FIELDS, d.Keys);
  }

  lemma StatesSpelled(t: Decoded, w: Decoded)
    ensures TechnicalOf(t).Some? <==> t in {StringValue(U("ACTIVE")), StringValue(U("RESOLVED"))}
    ensures WorkOf(w).Some? <==>
      w in {StringValue(U("OPEN")), StringValue(U("INVESTIGATING")), StringValue(U("RESOLVED")),
            StringValue(U("DISMISSED"))}
  {
    hide U;
  }

  lemma FieldCount()
    ensures |FIELDS| == 7
  {
  }

  lemma MoreThanSeven(keys: set<Str>)
    requires FIELDS <= keys && keys - FIELDS != {}
    ensures |keys| != 7
  {
    hide FIELDS;
    FieldCount();
    var extra := keys - FIELDS;
    assert keys == FIELDS + extra && |keys| == |FIELDS| + |extra|;
  }

  /** A payload that lacks required fields is rejected with exactly those fields, in order. */
  lemma MissingFieldsReported(p: Payload, x: Option<Str>)
    requires Decode(p).Some? && FIELDS - Decode(p).value.Keys != {}
    ensures StrictTotal(StrLess)
    ensures RestoreCheckpoint(p, x) == Rejected(IncompleteAuthority(Ascending(StrLess, FIELDS - Decode(p).value.Keys)))
  {
    hide Decode, StrLess, FIELDS, SORTED_FIELDS;
    StrOrder();
    FieldsAreSorted();
    FieldNamesDistinct();
    var keys := Decode(p).value.Keys;
    LackingAscends(SORTED_FIELDS, keys);
    LackingNothing(SORTED_FIELDS, keys);
    IncreasingUnique(StrLess, Lacking(SORTED_FIELDS, keys), Ascending(StrLess, FIELDS - keys));
  }

  /**
   * A text decodes exactly if it is a sentence of JSON that means an object and repeats no name at any depth, and then
   * to what it means.
   */
  lemma TextDecodes(text: Str)
    ensures Decode(TextPayload(text)).Some? <==>
      exists v :: JsonGrammar.Denotes(text, v) && v.Object? && NoDuplicates(v)
    ensures forall v :: JsonGrammar.Denotes(text, v) && Decode(TextPayload(text)).Some? ==>
      Mirrors(v, DictValue(Decode(TextPayload(text)).value))
  {
    hide Json.Loads, Build, Mirrors, NoDuplicates, JsonGrammar.Denotes;
    forall v { JsonGrammar.LoadsMeaning(text, v); }
    if Json.Loads(text).Some? {
      var v := Json.Loads(text).value;
      DuplicatesRejected(v);
      ObjectBuilds(v);
    }
  }

  lemma ObjectBuilds(v: Json.Raw)
    ensures Build(v).Some? ==> (Build(v).value.DictValue? <==> v.Object?)
  {
  }

  /** Every other text is rejected as malformed. */
  lemma MalformedTexts(text: Str, x: Option<Str>)
    requires forall v :: JsonGrammar.Denotes(text, v) ==> !v.Object? || !NoDuplicates(v)
    ensures RestoreCheckpoint(TextPayload(text), x) == Rejected(MalformedPayload)
  {
    hide RestoreFields, Decode;
    TextDecodes(text);
  }

  /** A text in which any object, however deep, repeats a name is rejected as malformed. */
  lemma RepeatedNameRejected(text: Str, v: Json.Raw, x: Option<Str>)
    requires Json.Loads(text) == Some(v) && !NoDuplicates(v)
    ensures RestoreCheckpoint(TextPayload(text), x) == Rejected(MalformedPayload)
  {
    DuplicatesRejected(v);
  }
}
