/** `UseAction` and `Handler` of Server.go: sniff the encoding from the
    first byte, decode the envelope, resolve the object name and then the
    verb, decode the payload a second time with the same decoder, and run the
    selected action.  The two decoders are library code; their results on
    the request body are an input here (`Codec`). */
module Dispatch {
  import opened Wrappers
  import opened Records
  import opened StoreModel
  import opened Actions

  newtype byte = x: int | 0 <= x < 256

  const OpenBrace: byte := 123  // '{'
  const OpenAngle: byte := 60   // '<'

  datatype Format = Json | Xml

  /** The `Action` struct every request is first decoded into. */
  datatype Envelope = Envelope(action: string, objName: string)

  /** What one decoder (`encoding/json` or `encoding/xml`) makes of the
      request body: the envelope or the error's text; the `data` record as
      left in the zero struct of each kind (possibly partly filled, since the
      payload decoders only print their errors); and `data.id`. */
  datatype Decoder = Decoder(envelope: Result<Envelope, string>, record: RecordDecoder, id: string)

  /** Decoding into `CreateTeacher`, `UpdateStudent` and so on fills a struct
      of that kind, so the record decoded for a kind always has that kind. */
  type RecordDecoder = f: Kind -> Record | forall k :: KindOf(f(k)) == k witness ZeroRecord

  datatype Codec = Codec(json: Decoder, xml: Decoder)

  function DecoderFor(c: Codec, f: Format): Decoder
  {
    match f
    case Json => c.json
    case Xml => c.xml
  }

  /** `strings.HasPrefix` on "{" and then on "<". */
  function Sniff(data: seq<byte>): (f: Option<Format>)
    ensures f == Some(Json) <==> 0 < |data| && data[0] == OpenBrace
    ensures f == Some(Xml) <==> 0 < |data| && data[0] == OpenAngle
  {
    if 0 < |data| && data[0] == OpenBrace then Some(Json)
    else if 0 < |data| && data[0] == OpenAngle then Some(Xml)
    else None
  }

  /** The `switch act.ObjName`: the inverse of `KindName`. */
  function ResolveKind(name: string): (r: Option<Kind>)
    ensures forall k :: r == Some(k) <==> KindName(k) == name
  {
    if name == "Teacher" then Some(TeacherKind)
    else if name == "Student" then Some(StudentKind)
    else if name == "Staff" then Some(StaffKind)
    else None
  }

  /** The `switch act.Action`: the inverse of `VerbName`. */
  function ResolveVerb(name: string): (r: Option<Verb>)
    ensures forall v :: r == Some(v) <==> VerbName(v) == name
  {
    if name == "create" then Some(Create)
    else if name == "update" then Some(Update)
    else if name == "read" then Some(Read)
    else if name == "delete" then Some(Delete)
    else None
  }

  /** `GetFromJSON` / `GetFromXML`: fill the action's payload from the
      decoder, keeping its kind and verb. */
  function Decode(a: DefinedAction, d: Decoder): (a': DefinedAction)
    ensures a'.kind == a.kind && VerbOf(a') == VerbOf(a)
    ensures (a'.CreateAction? || a'.UpdateAction?) ==> a'.data == d.record(a.kind)
    ensures (a'.ReadAction? || a'.DeleteAction?) ==> a'.id == d.id
  {
    match a
    case CreateAction(k, _) => CreateAction(k, d.record(k))
    case UpdateAction(k, _) => UpdateAction(k, d.record(k))
    case ReadAction(k, _) => ReadAction(k, d.id)
    case DeleteAction(k, _) => DeleteAction(k, d.id)
  }

  /** The selection half of `UseAction`: either the diagnostic text returned
      before anything runs, or the action to run. */
  function Select(data: seq<byte>, c: Codec): (r: Result<DefinedAction, string>)
    ensures Sniff(data) == None ==> r == Failure("Unsuported file type\n")
    ensures Sniff(data).Some? && DecoderFor(c, Sniff(data).value).envelope.Failure? ==>
              r == Failure(DecoderFor(c, Sniff(data).value).envelope.error + "\n")
    ensures Sniff(data).Some? && DecoderFor(c, Sniff(data).value).envelope.Success? ==>
              var env := DecoderFor(c, Sniff(data).value).envelope.value;
              && (ResolveKind(env.objName) == None ==> r == Failure("unknown object " + env.objName + "\n"))
              && (ResolveKind(env.objName).Some? && ResolveVerb(env.action) == None ==>
                    r == Failure("unknown action " + env.action + "\n"))
    ensures r.Success? <==>
              && Sniff(data).Some?
              && DecoderFor(c, Sniff(data).value).envelope.Success?
              && ResolveKind(DecoderFor(c, Sniff(data).value).envelope.value.objName).Some?
              && ResolveVerb(DecoderFor(c, Sniff(data).value).envelope.value.action).Some?
    ensures r.Success? ==>
              var d := DecoderFor(c, Sniff(data).value);
              && KindName(r.value.kind) == d.envelope.value.objName
              && VerbName(VerbOf(r.value)) == d.envelope.value.action
              && r.value == Decode(r.value, d)
              && WellKinded(r.value)
  {
    match Sniff(data)
    case None => Failure("Unsuported file type\n")
    case Some(f) =>
      var d := DecoderFor(c, f);
      match d.envelope
      case Failure(e) => Failure(e + "\n")
      case Success(env) =>
        match ResolveKind(env.objName)
        case None => Failure("unknown object " + env.objName + "\n")
        case Some(k) =>
          match ResolveVerb(env.action)
          case None => Failure("unknown action " + env.action + "\n")
          case Some(v) => Success(Decode(GetAction(k, v), d))
  }

  /** `UseAction` as a transition: a diagnostic leaves the store as it was,
      otherwise the selected action's `Process` runs. */
  function Respond(st: State, data: seq<byte>, c: Codec): (State, Response)
  {
    match Select(data, c)
    case Failure(msg) => (st, Text(msg))
    case Success(a) => Apply(st, a)
  }

  /** `string(id)` of a request body, byte by byte. */
  function BytesToString(b: seq<byte>): (s: string)
    ensures |s| == |b| && forall i :: 0 <= i < |b| ==> s[i] as int == b[i] as int
  {
    seq(|b|, i requires 0 <= i < |b| => b[i] as int as char)
  }

  /** `Handler` as a transition, for a request whose body was read. */
  function Serve(st: State, verb: string, body: seq<byte>, c: Codec): (State, Response)
  {
    if verb == "GET" then (st, Text(IdList(st.db)))
    else if verb == "POST" then Respond(st, body, c)
    else if verb == "DELETE" then
      (st.(db := Removed(st.db, BytesToString(body))), Text("Object deleted successfully\n"))
    else (st, Text("Unknown cmd\n"))
  }

  /** Every request keeps the store invariant, and the counter never goes
      back; only a POST can move it. */
  lemma ServeValid(st: State, verb: string, body: seq<byte>, c: Codec)
    requires Valid(st)
    ensures Valid(Serve(st, verb, body, c).0)
    ensures Serve(st, verb, body, c).0.firstFreeId >= st.firstFreeId
    ensures verb != "POST" ==> Serve(st, verb, body, c).0.firstFreeId == st.firstFreeId
  {
    if verb == "POST" {
      match Select(body, c)
      case Failure(_) =>
      case Success(a) => ApplyValid(st, a);
    } else if verb == "DELETE" {
      RemovedValid(st, BytesToString(body));
    }
  }

  /** A POST whose body the dispatcher rejects (unknown encoding, a broken
      envelope, an unknown object or verb) changes nothing. */
  lemma RejectedKeepsState(st: State, data: seq<byte>, c: Codec)
    requires Select(data, c).Failure?
    ensures Respond(st, data, c) == (st, Text(Select(data, c).error))
  {
  }

  /** The `DELETE` branch of `Handler` removes exactly the records with the
      body's identity, keeps the others in order and the counter unchanged,
      replies "Object deleted successfully\n", and afterwards a read of that
      identity panics and the `GET` listing no longer contains it. */
  lemma ServeDeleteThenRead(st: State, body: seq<byte>, c: Codec, k: Kind)
    requires Valid(st)
    ensures var (st1, reply) := Serve(st, "DELETE", body, c);
      var id := BytesToString(body);
      && reply == Text("Object deleted successfully\n")
      && st1.firstFreeId == st.firstFreeId
      && st1.db == WithoutId(st.db, id)
      && Apply(st1, ReadAction(k, id)) == (st1, Panic)
      && id !in Tokens(IdList(st1.db))
  {
    DeleteThenRead(st, k, BytesToString(body), k);
  }
}
