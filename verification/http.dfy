/** HTTP exchanges as the tag adapters see them: requests they build, with
    URLs kept as pieces so that escaping stays visible, and replies already
    decoded from JSON into the string fields the adapters read. */
module Http {
  import opened Text

  const StatusOK := 200
  const StatusCreated := 201
  const StatusBadRequest := 400
  const StatusUnauthorized := 401
  const StatusNotFound := 404
  const StatusConflict := 409
  const StatusUnprocessableEntity := 422

  datatype Method = Get | Post

  /** A URL piece: literal text, or text passed through `url.QueryEscape`,
      whose encoding is not modelled. */
  datatype Piece = Raw(text: string) | Escaped(text: string)

  type Url = seq<Piece>

  /** A JSON value as `json.Marshal` writes a request body; object members
      keep the struct's field order. */
  datatype Json = Str(s: string) | Bool(b: bool) | Obj(members: seq<(string, Json)>)

  /** Value of member `key` of an object, if present. */
  function Member(j: Json, key: string): (r: Option<Json>)
    ensures r.Some? ==> j.Obj? && exists i :: 0 <= i < |j.members| && j.members[i] == (key, r.value)
  {
    if !j.Obj? then None else Find(j.members, key)
  }

  function Find(ms: seq<(string, Json)>, key: string): (r: Option<Json>)
    ensures r.Some? ==> exists i :: 0 <= i < |ms| && ms[i] == (key, r.value)
    ensures r.None? ==> forall i :: 0 <= i < |ms| ==> ms[i].0 != key
  {
    if ms == [] then None
    else if ms[0].0 == key then Some(ms[0].1)
    else
      var r := Find(ms[1..], key);
      assert forall i :: 0 <= i < |ms[1..]| ==> ms[1..][i] == ms[i + 1];
      r
  }

  /** The first member with the key is the one found. */
  lemma {:induction false} FindAt(ms: seq<(string, Json)>, key: string, i: nat)
    requires i < |ms| && ms[i].0 == key
    requires forall j :: 0 <= j < i ==> ms[j].0 != key
    ensures Find(ms, key) == Some(ms[i].1)
  {
    if i > 0 {
      FindAt(ms[1..], key, i - 1);
    }
  }

  /** A request an adapter sends: verb, URL, query parameters in the order
      they are added, and an optional JSON body. */
  datatype Request = Request(verb: Method, url: Url, query: seq<(string, string)>, body: Option<Json>)

  /** What happens to one request: `http.NewRequest` returned no request (the
      URL did not parse), the client returned no response, or a response came
      back. A response body is the JSON document keyed by dotted path
      (`commit`, `commit.id`, `errors.0`, `errors.0.code`): a key is present
      exactly when the document has a value there, and maps to that value
      when it is a string and to the empty string otherwise, which is what
      `json.Unmarshal` leaves in a Go string field. */
  datatype Reply =
    | NoRequest
    | NoResponse
    | Response(status: int, fields: map<string, string>)

  /** The string at `path` as `json.Unmarshal` leaves it in a Go struct: the
      empty string when the document has no value there or the reply has no
      body. */
  function Field(reply: Reply, path: string): (v: string)
    ensures reply.Response? && path in reply.fields ==> v == reply.fields[path]
    ensures !(reply.Response? && path in reply.fields) ==> v == ""
  {
    if reply.Response? && path in reply.fields then reply.fields[path] else ""
  }

  /** The reply carries `status`. */
  predicate HasStatus(reply: Reply, status: int) {
    reply.Response? && reply.status == status
  }

  /** `host` verbatim when set, else the vendor's default base. */
  function Base(host: string, default: string): (u: Url)
    ensures |u| == 1 && u[0].Raw?
    ensures host != "" ==> u[0].text == host
    ensures host == "" ==> u[0].text == default
  {
    [Raw(if host == "" then default else host)]
  }
}
