/** How a document is decoded twice: into trust manifests, and into their raw JSON. As
    the decoder reads an object, each member goes into what is there already, so values
    of a repeated member merge, while raw values are replaced. A member meets the field
    of its name, in whatever letter case. */
module Decoding {
  import opened Json
  import opened Text
  import opened Catalog

  /** What a trust manifest says about its party, its artifact and its signature. */
  datatype Statement = Statement(contributor: string, subject: Option<Subject>, signature: Option<Signature>)

  const UNSTATED := Statement("", None, None)
  const NO_SUBJECT := Subject("", "", "", "")
  const NO_SIGNATURE := Signature("", "", "", "", "")
  const NO_ENTRY := EntryView(Slice([], []), [])

  function StatementOf(m: TrustManifest): Statement {
    Statement(m.contributor, m.subject, m.signature)
  }

  /** A Go slice: its elements, and those that a longer list left in the room behind. */
  datatype Slice<T> = Slice(items: seq<T>, spare: seq<T>) {
    function Room(): seq<T> {
      items + spare
    }
  }

  /** The statements of an entry's trust manifests, and their raw values. */
  datatype EntryView = EntryView(manifests: Slice<Statement>, raw: seq<Json>)

  // ---- decoding into what is there ----

  type Step<!S> = (S, Member) -> Option<S>
  type Reader<!S> = (S, Json) -> Option<S>

  /** Decodes the members of an object in order. */
  function Members<S>(step: Step<S>, prior: S, ms: seq<Member>): Option<S> {
    if ms == [] then Some(prior)
    else
      match Members(step, prior, ms[..|ms| - 1])
      case None => None
      case Some(s) => step(s, ms[|ms| - 1])
  }

  /** Decodes an object; null leaves what is there. */
  function Object<S>(step: Step<S>, prior: S, j: Json): Option<S> {
    match j
    case Obj(ms) => Members(step, prior, ms)
    case Null => Some(prior)
    case _ => None
  }

  function OrZero<S>(prior: Option<S>, zero: S): S {
    match prior case None => zero case Some(s) => s
  }

  /** Decodes an object behind a pointer; null removes it. */
  function Pointer<S>(step: Step<S>, zero: S, prior: Option<S>, j: Json): Option<Option<S>> {
    if j.Null? then Some(None)
    else
      match Object(step, OrZero(prior, zero), j)
      case None => None
      case Some(s) => Some(Some(s))
  }

  /** Decodes the items of an array, each into the element in its place. */
  function Items<T>(read: Reader<T>, zero: T, room: seq<T>, items: seq<Json>): (r: Option<seq<T>>)
    ensures r.Some? ==> |r.value| == |items|
  {
    if items == [] then Some([])
    else
      var n := |items| - 1;
      match (Items(read, zero, room, items[..n]), read(if n < |room| then room[n] else zero, items[n]))
      case (Some(done), Some(last)) => Some(done + [last])
      case _ => None
  }

  /** Decodes an array into a slice, over the elements in its room; null and the empty
      array give up the room. */
  function ReadSlice<T>(read: Reader<T>, zero: T, prior: Slice<T>, j: Json): Option<Slice<T>> {
    match j
    case Null => Some(Slice([], []))
    case Arr(items) =>
      if items == [] then Some(Slice([], []))
      else
        (match Items(read, zero, prior.Room(), items)
         case None => None
         case Some(done) => Some(Slice(done, Behind(prior.Room(), |done|))))
    case _ => None
  }

  function Behind<T>(room: seq<T>, n: nat): seq<T> {
    if n < |room| then room[n..] else []
  }

  function ReadText(prior: string, j: Json): Option<string> {
    match j case Str(text) => Some(text) case Null => Some(prior) case _ => None
  }

  // ---- the fields, named here by the fold of their names ----

  function SubjectMember(s: Subject, m: Member): Option<Subject> {
    match Fold(m.name)
    case "identifier" =>
      (match ReadText(s.identifier, m.value) case None => None case Some(t) => Some(s.(identifier := t)))
    case "version" => (match ReadText(s.version, m.value) case None => None case Some(t) => Some(s.(version := t)))
    case "type" => (match ReadText(s.typ, m.value) case None => None case Some(t) => Some(s.(typ := t)))
    case "digest" => (match ReadText(s.digest, m.value) case None => None case Some(t) => Some(s.(digest := t)))
    case _ => Some(s)
  }

  function SignatureMember(s: Signature, m: Member): Option<Signature> {
    match Fold(m.name)
    case "signer" => (match ReadText(s.signer, m.value) case None => None case Some(t) => Some(s.(signer := t)))
    case "profile" => (match ReadText(s.profile, m.value) case None => None case Some(t) => Some(s.(profile := t)))
    case "issuedat" => (match ReadText(s.issuedAt, m.value) case None => None case Some(t) => Some(s.(issuedAt := t)))
    case "expiresat" =>
      (match ReadText(s.expiresAt, m.value) case None => None case Some(t) => Some(s.(expiresAt := t)))
    case "jws" => (match ReadText(s.jws, m.value) case None => None case Some(t) => Some(s.(jws := t)))
    case _ => Some(s)
  }

  function StatementMember(st: Statement, m: Member): Option<Statement> {
    match Fold(m.name)
    case "contributor" =>
      (match ReadText(st.contributor, m.value) case None => None case Some(t) => Some(st.(contributor := t)))
    case "subject" =>
      (match Pointer(SubjectMember, NO_SUBJECT, st.subject, m.value)
       case None => None case Some(s) => Some(st.(subject := s)))
    case "signature" =>
      (match Pointer(SignatureMember, NO_SIGNATURE, st.signature, m.value)
       case None => None case Some(s) => Some(st.(signature := s)))
    case _ => Some(st)
  }

  const ENTRIES := "entries"
  const TRUST_MANIFESTS := "trustmanifests"

  function ReadManifest(st: Statement, j: Json): Option<Statement> {
    Object(StatementMember, st, j)
  }

  /** A list of raw values replaces the list before it. */
  function RawItems(j: Json): seq<Json> {
    if j.Arr? then j.items else []
  }

  function EntryMember(v: EntryView, m: Member): Option<EntryView> {
    if Fold(m.name) != TRUST_MANIFESTS then Some(v)
    else
      match ReadSlice(ReadManifest, UNSTATED, v.manifests, m.value)
      case None => None
      case Some(manifests) => Some(EntryView(manifests, RawItems(m.value)))
  }

  function ReadEntry(v: EntryView, j: Json): Option<EntryView> {
    Object(EntryMember, v, j)
  }

  function DocumentMember(vs: Slice<EntryView>, m: Member): Option<Slice<EntryView>> {
    if Fold(m.name) != ENTRIES then Some(vs) else ReadSlice(ReadEntry, NO_ENTRY, vs, m.value)
  }

  /** The statement of a manifest read on its own. */
  function ReadStatement(j: Json): Option<Statement> {
    ReadManifest(UNSTATED, j)
  }

  /** The entries of a document. */
  function ReadEntries(document: Json): Option<seq<EntryView>> {
    match Object(DocumentMember, Slice([], []), document) case None => None case Some(vs) => Some(vs.items)
  }

  // ---- what the rest of the decoder yields ----

  /** Another decoder that reads all other members of catalogs, entries and manifests. */
  type OtherMembers = Json -> Option<AICatalog>

  predicate SameShape(c: AICatalog, vs: seq<EntryView>) {
    |c.entries| == |vs| && forall i :: 0 <= i < |vs| ==> |c.entries[i].manifests| == |vs[i].manifests.items|
  }

  function WithStatements(e: Entry, v: EntryView): Entry
    requires |e.manifests| == |v.manifests.items|
  {
    e.(manifests := seq(|v.manifests.items|, k requires 0 <= k < |v.manifests.items| =>
         e.manifests[k].(contributor := v.manifests.items[k].contributor, subject := v.manifests.items[k].subject,
                         signature := v.manifests.items[k].signature)))
  }

  /** The catalog a document denotes. */
  function ParseCatalog(others: OtherMembers, document: Json): Option<AICatalog> {
    match (ReadEntries(document), others(document))
    case (Some(vs), Some(c)) =>
      if SameShape(c, vs)
      then Some(c.(entries := seq(|vs|, i requires 0 <= i < |vs| => WithStatements(c.entries[i], vs[i]))))
      else None
    case _ => None
  }

  /** A document as served: the catalog it denotes, and the raw manifests of each entry. */
  datatype Served = Served(c: AICatalog, document: Json, manifests: seq<seq<Json>>) {
    predicate Aligned() {
      |manifests| == |c.entries|
    }

    /** Catalog and raw manifests are what the document decodes to. */
    predicate Decoded() {
      var vs := ReadEntries(document);
      && Aligned() && vs.Some? && |vs.value| == |c.entries|
      && forall i :: 0 <= i < |c.entries| ==> manifests[i] == vs.value[i].raw && States(c.entries[i], vs.value[i])
    }
  }

  predicate States(e: Entry, v: EntryView) {
    |e.manifests| == |v.manifests.items| && forall k :: 0 <= k < |e.manifests| ==>
        StatementOf(e.manifests[k]) == v.manifests.items[k]
  }

  function Raws(vs: seq<EntryView>): seq<seq<Json>> {
    seq(|vs|, i requires 0 <= i < |vs| => vs[i].raw)
  }

  /** Both decodings of a document. */
  function Serve(others: OtherMembers, document: Json): (r: Option<Served>)
    ensures r.Some? ==> r.value.document == document && r.value.Decoded()
  {
    match ParseCatalog(others, document)
    case None => None
    case Some(c) => Some(Served(c, document, Raws(ReadEntries(document).value)))
  }
}
