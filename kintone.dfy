/**
 The request `upload_to_kintone` sends: nothing when the configuration is
 incomplete, otherwise a POST of the app id and a record holding exactly four
 fields, each `{"value": data.get(key, "")}`. Sending it is a parameter.
 */
module Kintone {
  import opened Optional
  import opened JsonValue

  /** The three settings read from the environment; None when unset. */
  datatype Config = Config(subdomain: Option<string>, appId: Option<string>, apiToken: Option<string>)

  /** Python truthiness of an `os.getenv` result: set and not empty. */
  predicate IsSet(v: Option<string>) {
    v.Some? && v.value != ""
  }

  /** `all([KINTONE_SUBDOMAIN, KINTONE_APP_ID, KINTONE_API_TOKEN])` */
  predicate Complete(cfg: Config) {
    IsSet(cfg.subdomain) && IsSet(cfg.appId) && IsSet(cfg.apiToken)
  }

  /** Keys of the extracted data and the Kintone field codes they go to. */
  const FieldMapping: map<string, string> := map[
    "date" := "日付",
    "customer_name" := "顧客名",
    "activity_detail" := "活動内容",
    "next_action" := "次回アクション"
  ]

  /** The field codes a record carries: the values of the mapping. */
  const FieldCodes: set<string> := FieldMapping.Values

  /** The four field codes, listed. */
  lemma FieldCodesListed()
    ensures FieldCodes == {"日付", "顧客名", "活動内容", "次回アクション"}
  {
    assert FieldMapping.Keys == {"date", "customer_name", "activity_detail", "next_action"};
    forall v | v in FieldCodes ensures v in {"日付", "顧客名", "活動内容", "次回アクション"} {
      var k :| k in FieldMapping && FieldMapping[k] == v;
    }
    assert FieldMapping["date"] in FieldCodes;
    assert FieldMapping["customer_name"] in FieldCodes;
    assert FieldMapping["activity_detail"] in FieldCodes;
    assert FieldMapping["next_action"] in FieldCodes;
  }

  /** `data.get(key, "")` */
  function Get(data: map<string, Json>, key: string): Json {
    if key in data then data[key] else JString("")
  }

  /** One Kintone field: `{"value": v}`. */
  function Field(v: Json): Json {
    JObject(map["value" := v])
  }

  /** The `record` part of the payload: one field per mapped key and nothing
      else; a missing key becomes the empty string. */
  function Record(data: map<string, Json>): (rec: map<string, Json>)
    ensures rec.Keys == FieldCodes
    ensures forall key :: key in FieldMapping ==> rec[FieldMapping[key]] == Field(Get(data, key))
  {
    FieldCodesListed();
    map[
      "日付" := Field(Get(data, "date")),
      "顧客名" := Field(Get(data, "customer_name")),
      "活動内容" := Field(Get(data, "activity_detail")),
      "次回アクション" := Field(Get(data, "next_action"))
    ]
  }

  /** Reads a record back into extracted-data form, one key per field code. */
  function ReadBack(rec: map<string, Json>): map<string, Json>
    requires rec.Keys == FieldCodes
  {
    map key | key in FieldMapping ::
      match rec[FieldMapping[key]]
      case JObject(f) => if "value" in f then f["value"] else JNull
      case _ => JNull
  }

  /** Reading the record back gives the four mapped keys with their values,
      an absent key as "", and none of the other keys. */
  lemma ReadBackRecord(data: map<string, Json>)
    ensures ReadBack(Record(data)) == map key | key in FieldMapping :: Get(data, key)
  {
    var rec := Record(data);
    var back := ReadBack(rec);
    forall key | key in FieldMapping ensures back[key] == Get(data, key) {
      assert rec[FieldMapping[key]] == Field(Get(data, key));
      assert Field(Get(data, key)).fields["value"] == Get(data, key);
    }
  }

  /** Two extracted dicts give the same record exactly when they agree on the
      four mapped keys (counting an absent key as ""). */
  lemma RecordDependsOnMappedKeysOnly(d1: map<string, Json>, d2: map<string, Json>)
    ensures Record(d1) == Record(d2) <==> forall key :: key in FieldMapping ==> Get(d1, key) == Get(d2, key)
  {
    if Record(d1) == Record(d2) {
      forall key | key in FieldMapping ensures Get(d1, key) == Get(d2, key) {
        ReadBackRecord(d1);
        ReadBackRecord(d2);
        assert ReadBack(Record(d1))[key] == Get(d1, key);
      }
    }
  }

  /** A key the mapping does not name is dropped: adding it changes nothing. */
  lemma UnmappedKeyDropped(data: map<string, Json>, key: string, v: Json)
    requires key !in FieldMapping
    ensures Record(data[key := v]) == Record(data)
  {
    RecordDependsOnMappedKeysOnly(data[key := v], data);
  }

  /** The HTTP request: endpoint, headers and JSON body. */
  datatype Request = Request(url: string, headers: map<string, string>, body: Json)

  function Endpoint(subdomain: string): string {
    "https://" + subdomain + ".cybozu.com/k/v1/record.json"
  }

  /** The request `upload_to_kintone` would post, or None when the configuration
      is incomplete and nothing is built. */
  function BuildRequest(cfg: Config, data: map<string, Json>): (r: Option<Request>)
    ensures r.Some? <==> Complete(cfg)
    ensures r.Some? ==> r.value.url == Endpoint(cfg.subdomain.value)
    ensures r.Some? ==> r.value.headers.Keys == {"X-Cybozu-API-Token", "Content-Type"}
    ensures r.Some? ==> r.value.headers["X-Cybozu-API-Token"] == cfg.apiToken.value
    ensures r.Some? ==> r.value.headers["Content-Type"] == "application/json"
    ensures r.Some? ==> r.value.body.JObject? && r.value.body.fields.Keys == {"app", "record"}
    ensures r.Some? ==> r.value.body.fields["app"] == JString(cfg.appId.value)
    ensures r.Some? ==> r.value.body.fields["record"] == JObject(Record(data))
  {
    if !Complete(cfg) then None
    else
      Some(Request(
        Endpoint(cfg.subdomain.value),
        map["X-Cybozu-API-Token" := cfg.apiToken.value, "Content-Type" := "application/json"],
        JObject(map["app" := JString(cfg.appId.value), "record" := JObject(Record(data))])))
  }

  /** What came of the POST: a created record, an HTTP error status, or no
      usable response at all. */
  datatype PostResult = Created(id: Option<string>) | HttpError(status: int, body: string) | NetworkError

  /** `upload_to_kintone`: true only when the configuration is complete and the
      posted request created a record. */
  function UploadToKintone(cfg: Config, data: map<string, Json>, post: Request -> PostResult): (ok: bool)
    ensures !Complete(cfg) ==> !ok
    ensures Complete(cfg) ==> (ok <==> post(BuildRequest(cfg, data).value).Created?)
  {
    match BuildRequest(cfg, data)
    case None => false
    case Some(req) =>
      match post(req)
      case Created(_) => true
      case HttpError(_, _) => false
      case NetworkError => false
  }
}
