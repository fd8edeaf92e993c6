/** The attached files of a beatdown, read from the JSON document stored with it. */
module Files {
  import opened Wrappers

  /** A decoded JSON value. Objects are maps because decoding keeps one value per key. */
  datatype Json =
    | JNull
    | JBool(b: bool)
    | JNumber(n: int)
    | JString(s: string)
    | JArray(items: seq<Json>)
    | JObject(fields: map<string, Json>)

  /** The stored document: text that does not decode, or the value it decodes to. */
  datatype Document = Malformed | Decoded(value: Json)

  /** What reading the files gives: a list of links or nothing, or the attribute error that
      escapes when the document is valid JSON but not an object. */
  datatype Outcome = Returns(urls: Option<seq<string>>) | RaisesAttributeError

  /** The keys of a file object that can hold its link, in the order they are tried. */
  const UrlKeys: seq<string> := ["url", "permalink", "url_private", "permalink_public"]

  /** The value of the first key among `keys` that the object has with a string value. */
  function FirstStringField(fields: map<string, Json>, keys: seq<string>): (r: Option<string>)
    ensures r.Some? ==> exists i :: (0 <= i < |keys| && keys[i] in fields && fields[keys[i]] == JString(r.value)
      && forall j :: 0 <= j < i ==> keys[j] !in fields || !fields[keys[j]].JString?)
    ensures r.None? <==> forall i :: 0 <= i < |keys| ==> keys[i] !in fields || !fields[keys[i]].JString?
    decreases |keys|
  {
    if |keys| == 0 then None
    else if keys[0] in fields && fields[keys[0]].JString? then Some(fields[keys[0]].s)
    else
      var r := FirstStringField(fields, keys[1..]);
      assert r.Some? ==> forall i :: 1 <= i <= |keys[1..]| ==> keys[i] == keys[1..][i - 1];
      r
  }

  /** Index `i` names the first link key that the object has with a string value. */
  predicate FirstLinkKey(fields: map<string, Json>, i: nat) {
    i < |UrlKeys| && UrlKeys[i] in fields && fields[UrlKeys[i]].JString?
    && forall j :: 0 <= j < i ==> UrlKeys[j] !in fields || !fields[UrlKeys[j]].JString?
  }

  /** The link one element of the `files` list contributes: a string as it is, an object's
      first string-valued link field unless it is empty, and nothing for anything else. */
  function ItemUrl(item: Json): (r: Option<string>)
    ensures item.JString? ==> r == Some(item.s)
    ensures item.JObject? ==> (r.Some? <==> exists i: nat :: FirstLinkKey(item.fields, i) && item.fields[UrlKeys[i]].s != [])
    ensures item.JObject? && r.Some? ==> exists i: nat :: FirstLinkKey(item.fields, i) && r.value == item.fields[UrlKeys[i]].s
    ensures !item.JString? && !item.JObject? ==> r.None?
  {
    match item
    case JString(s) => Some(s)
    case JObject(fields) =>
      (match FirstStringField(fields, UrlKeys)
       case Some(u) => if u != [] then Some(u) else None
       case None => None)
    case _ => None
  }

  /** The links of the `files` list, in list order. */
  function Urls(items: seq<Json>): (urls: seq<string>)
    ensures |urls| <= |items|
    ensures forall u :: u in urls ==> exists i :: 0 <= i < |items| && ItemUrl(items[i]) == Some(u)
    ensures forall i :: 0 <= i < |items| && ItemUrl(items[i]).Some? ==> ItemUrl(items[i]).value in urls
    decreases |items|
  {
    if |items| == 0 then []
    else
      var rest := Urls(items[1..]);
      assert forall i :: 1 <= i < |items| ==> items[i] == items[1..][i - 1];
      match ItemUrl(items[0])
      case Some(u) => [u] + rest
      case None => rest
  }

  /** The links of the document's `files` list, or nothing when the document does not
      decode, has no `files` list, or the list yields no link. */
  function ExtractFiles(doc: Document): (r: Outcome)
    ensures doc.Malformed? ==> r == Returns(None)
    ensures r.RaisesAttributeError? <==> doc.Decoded? && !doc.value.JObject?
    ensures r.Returns? && r.urls.Some? ==> r.urls.value != []
    ensures r.Returns? && r.urls.Some? ==>
      doc.Decoded? && "files" in doc.value.fields && doc.value.fields["files"].JArray?
      && r.urls.value == Urls(doc.value.fields["files"].items)
    ensures (doc.Decoded? && doc.value.JObject? && "files" in doc.value.fields && doc.value.fields["files"].JArray?
             && Urls(doc.value.fields["files"].items) != []) ==> r == Returns(Some(Urls(doc.value.fields["files"].items)))
  {
    match doc
    case Malformed => Returns(None)
    case Decoded(JObject(fields)) =>
      if "files" in fields && fields["files"].JArray? then
        var urls := Urls(fields["files"].items);
        Returns(if urls == [] then None else Some(urls))
      else Returns(None)
    case Decoded(_) => RaisesAttributeError
  }

  /** Reading the links of a list in two parts gives the links of each part, in order. */
  lemma {:induction false} UrlsOfConcat(a: seq<Json>, b: seq<Json>)
    ensures Urls(a + b) == Urls(a) + Urls(b)
    decreases |a|
  {
    if |a| == 0 {
      assert a + b == b;
    } else {
      assert (a + b)[1..] == a[1..] + b;
      UrlsOfConcat(a[1..], b);
    }
  }

  /** An empty string in the list is kept as a link, while an object whose link is empty
      contributes nothing. */
  lemma EmptyLinks()
    ensures ExtractFiles(Decoded(JObject(map["files" := JArray([JString("")])]))) == Returns(Some([""]))
    ensures ExtractFiles(Decoded(JObject(map["files" := JArray([JObject(map["url" := JString("")])])]))) == Returns(None)
  {
    var fields := map["url" := JString("")];
    assert FirstStringField(fields, UrlKeys) == Some("");
    var one := [JString("")];
    assert one[1..] == [];
    assert Urls(one) == [""];
  }

  /** A link field whose value is not a string is skipped in favour of the next key. */
  lemma NonStringLinkSkipped(u: string)
    requires u != []
    ensures ItemUrl(JObject(map["url" := JNumber(1), "permalink" := JString(u)])) == Some(u)
  {
    var fields := map["url" := JNumber(1), "permalink" := JString(u)];
    assert UrlKeys[0] == "url" && UrlKeys[1] == "permalink";
    assert FirstStringField(fields, UrlKeys[1..]) == Some(u);
  }
}
