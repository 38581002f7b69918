/**
 * What the conversation logger (utils/conversation_logger.py) keeps of an
 * interaction: the user's input cut to 1000 characters and the bot's
 * response cleaned of credentials and cut to readable size. Writing the
 * record to a file or a database is not part of this model.
 */
module ConversationLogging {
  import opened Wrappers
  import opened Text
  import opened Json

  /** Keys never written to a log. */
  const SensitiveKeys: seq<string> := ["api_key", "token", "credentials"]

  const MaxValueLength: nat := 500
  const MaxContentLength: nat := 1000

  /** `value[:500] + "..."` for a string longer than 500 characters, the string itself otherwise. */
  function Shorten(s: string): (r: string)
    ensures |s| <= MaxValueLength ==> r == s
    ensures |s| > MaxValueLength ==> |r| == MaxValueLength + 3 && r[..MaxValueLength] == s[..MaxValueLength]
                                     && r[MaxValueLength..] == "..."
  {
    if |s| > MaxValueLength then s[..MaxValueLength] + "..." else s
  }

  /** Shortening twice is shortening once: a shortened string keeps its first 500 characters and its ellipsis. */
  lemma ShortenIdempotent(s: string)
    ensures Shorten(Shorten(s)) == Shorten(s)
  {
    if |s| > MaxValueLength {
      var r := Shorten(s);
      assert r[..MaxValueLength] + "..." == r;
    }
  }

  /** A value as the dict branch stores it: strings shortened, anything else as it is. */
  function SanitizedValue(v: Json): (r: Json)
    ensures (v.JStr? ==> |v.s| <= MaxValueLength) ==> r == v
    ensures v.JStr? ==> r.JStr? && |r.s| <= MaxValueLength + 3
    ensures v.JStr? && |v.s| > MaxValueLength ==>
              && |r.s| == MaxValueLength + 3
              && r.s[..MaxValueLength] == v.s[..MaxValueLength]
              && r.s[MaxValueLength..] == "..."
  {
    if v.JStr? then JStr(Shorten(v.s)) else v
  }

  /** What one field contributes to the log: nothing for a sensitive key, the sanitised field otherwise. */
  function FieldKept(field: (string, Json)): Dict {
    if field.0 in SensitiveKeys then [] else [(field.0, SanitizedValue(field.1))]
  }

  /** The fields of a dict response that reach the log, in their order, values sanitised. */
  function SanitizedFields(d: Dict): (r: Dict)
    ensures |r| <= |d|
  {
    if d == [] then [] else FieldKept(d[0]) + SanitizedFields(d[1..])
  }

  /**
   * What `_sanitize_response` returns: a dict is filtered field by field, a
   * string goes under `content` shortened, anything else goes under
   * `content` as the first 500 characters of its `str()`, with no ellipsis.
   */
  function SanitizedResponse(response: Json): Dict {
    match response
    case JObj(fields) => SanitizedFields(fields)
    case JStr(s) => [("content", JStr(Shorten(s)))]
    case _ => [("content", JStr(Take(Str(response), MaxValueLength)))]
  }

  /** A dict with no duplicate key gains a new key at its end. */
  lemma {:induction false} SetNewKey(d: Dict, k: string, v: Json)
    requires !HasKey(d, k)
    ensures Set(d, k, v) == d + [(k, v)]
  {
    if d != [] {
      assert Keys(d) == [d[0].0] + Keys(d[1..]);
      SetNewKey(d[1..], k, v);
      assert d == [d[0]] + d[1..];
    }
  }

  /** The fields kept from a run of entries carry keys of that run only. */
  lemma {:induction false} SanitizedFieldsKeys(d: Dict)
    ensures forall j :: 0 <= j < |SanitizedFields(d)| ==> SanitizedFields(d)[j].0 in Keys(d)
    ensures forall j :: 0 <= j < |SanitizedFields(d)| ==> SanitizedFields(d)[j].0 !in SensitiveKeys
  {
    if d != [] {
      SanitizedFieldsKeys(d[1..]);
      assert Keys(d) == [d[0].0] + Keys(d[1..]);
    }
  }

  /** The dict branch: copy each non-sensitive field into a fresh dict, shortening long strings. */
  method SanitizeDict(response: Dict) returns (sanitized: Dict)
    requires DistinctKeys(response)
    ensures sanitized == SanitizedFields(response)
  {
    sanitized := [];
    for i := 0 to |response|
      invariant sanitized == SanitizedFields(response[..i])
    {
      var key := response[i].0;
      var value := response[i].1;
      SanitizedFieldsStep(response, i);
      if key !in SensitiveKeys {
        var v := if value.JStr? && |value.s| > MaxValueLength then JStr(value.s[..MaxValueLength] + "...") else value;
        NotYetKept(response, i);
        SetNewKey(sanitized, key, v);
        sanitized := Set(sanitized, key, v);
      }
    }
    assert response[..|response|] == response;
  }

  /** Extending the run of fields by one adds that field's contribution at the end. */
  lemma SanitizedFieldsStep(d: Dict, i: nat)
    requires i < |d|
    ensures SanitizedFields(d[..i + 1]) == SanitizedFields(d[..i]) + FieldKept(d[i])
  {
    assert d[..i + 1] == d[..i] + [d[i]];
    SanitizedFieldsAppend(d[..i], [d[i]]);
    assert SanitizedFields([d[i]]) == FieldKept(d[i]) + [];
  }

  /** The key of the next field is not among those already copied, since a dict repeats no key. */
  lemma NotYetKept(response: Dict, i: nat)
    requires DistinctKeys(response) && i < |response|
    ensures !HasKey(SanitizedFields(response[..i]), response[i].0)
  {
    var sanitized := SanitizedFields(response[..i]);
    SanitizedFieldsKeys(response[..i]);
    forall j | 0 <= j < |sanitized| ensures sanitized[j].0 != response[i].0 {
      var m :| 0 <= m < |response[..i]| && Keys(response[..i])[m] == sanitized[j].0;
      assert response[m].0 == sanitized[j].0;
    }
  }

  lemma {:induction false} SanitizedFieldsAppend(a: Dict, b: Dict)
    ensures SanitizedFields(a + b) == SanitizedFields(a) + SanitizedFields(b)
  {
    if a == [] {
      assert a + b == b;
    } else {
      assert (a + b)[0] == a[0] && (a + b)[1..] == a[1..] + b;
      SanitizedFieldsAppend(a[1..], b);
      JoinAssoc(FieldKept(a[0]), SanitizedFields(a[1..]), SanitizedFields(b));
    }
  }

  /** `_sanitize_response`. A Python dict never repeats a key. */
  method SanitizeResponse(response: Json) returns (sanitized: Dict)
    requires response.JObj? ==> DistinctKeys(response.fields)
    ensures sanitized == SanitizedResponse(response)
  {
    if response.JObj? {
      sanitized := SanitizeDict(response.fields);
    } else if response.JStr? {
      var s := response.s;
      sanitized := [("content", JStr(if |s| > MaxValueLength then s[..MaxValueLength] + "..." else s))];
    } else {
      sanitized := [("content", JStr(Take(Str(response), MaxValueLength)))];
    }
  }

  /**
   * For a dict response: no sensitive key is kept, every other field is
   * kept with its value sanitised, and the kept keys stay distinct.
   */
  lemma SanitizedFieldsMeans(d: Dict)
    requires DistinctKeys(d)
    ensures forall k :: k in SensitiveKeys ==> !HasKey(SanitizedFields(d), k)
    ensures forall k :: k !in SensitiveKeys ==>
              Get(SanitizedFields(d), k) == (if HasKey(d, k) then Some(SanitizedValue(Get(d, k).value)) else None)
    ensures DistinctKeys(SanitizedFields(d))
  {
    SanitizedFieldsKeys(d);
    forall k | k !in SensitiveKeys
      ensures Get(SanitizedFields(d), k) == (if HasKey(d, k) then Some(SanitizedValue(Get(d, k).value)) else None)
    {
      SanitizedFieldsGet(d, k);
    }
    SanitizedFieldsDistinct(d);
  }

  /** A key that is not sensitive reads back its sanitised value, or nothing if it was absent. */
  lemma {:induction false} SanitizedFieldsGet(d: Dict, k: string)
    requires k !in SensitiveKeys
    ensures Get(SanitizedFields(d), k) == (if HasKey(d, k) then Some(SanitizedValue(Get(d, k).value)) else None)
  {
    if d != [] {
      var rest := SanitizedFields(d[1..]);
      SanitizedFieldsGet(d[1..], k);
      assert SanitizedFields(d) == FieldKept(d[0]) + rest;
      if d[0].0 == k {
        assert Keys(d)[0] == k;
        assert FieldKept(d[0]) + rest == [(k, SanitizedValue(d[0].1))] + rest;
      } else {
        assert HasKey(d, k) == HasKey(d[1..], k) by {
          assert Keys(d) == [d[0].0] + Keys(d[1..]);
        }
        GetAfterAbsent(FieldKept(d[0]), rest, k);
      }
    }
  }

  /** Filtering a dict with distinct keys leaves the kept keys distinct. */
  lemma {:induction false} SanitizedFieldsDistinct(d: Dict)
    requires DistinctKeys(d)
    ensures DistinctKeys(SanitizedFields(d))
  {
    if d != [] {
      var rest := SanitizedFields(d[1..]);
      assert DistinctKeys(d[1..]);
      SanitizedFieldsDistinct(d[1..]);
      SanitizedFieldsKeys(d[1..]);
      assert d[0].0 !in Keys(d[1..]) by {
        forall j | 0 <= j < |d[1..]| ensures Keys(d[1..])[j] != d[0].0 {
          assert d[1..][j] == d[j + 1];
        }
      }
      if d[0].0 !in SensitiveKeys {
        assert SanitizedFields(d) == [(d[0].0, SanitizedValue(d[0].1))] + rest;
        assert !HasKey(rest, d[0].0) by {
          forall j | 0 <= j < |rest| ensures Keys(rest)[j] != d[0].0 {
            assert rest[j].0 in Keys(d[1..]);
          }
        }
        DistinctCons((d[0].0, SanitizedValue(d[0].1)), rest);
      } else {
        assert SanitizedFields(d) == [] + rest;
      }
    }
  }

  /** Sanitising what was already sanitised changes nothing, whatever the response was. */
  lemma SanitizeIdempotent(response: Json)
    requires response.JObj? ==> DistinctKeys(response.fields)
    ensures SanitizedResponse(JObj(SanitizedResponse(response))) == SanitizedResponse(response)
  {
    match response
    case JObj(fields) => FieldsIdempotent(fields);
    case JStr(s) =>
      ShortenIdempotent(s);
      assert "content" !in SensitiveKeys;
    case _ =>
      assert "content" !in SensitiveKeys;
  }

  lemma {:induction false} FieldsIdempotent(d: Dict)
    ensures SanitizedFields(SanitizedFields(d)) == SanitizedFields(d)
  {
    if d != [] {
      FieldsIdempotent(d[1..]);
      var rest := SanitizedFields(d[1..]);
      if d[0].0 !in SensitiveKeys {
        var v := d[0].1;
        if v.JStr? { ShortenIdempotent(v.s); }
        var r := [(d[0].0, SanitizedValue(v))] + rest;
        assert SanitizedValue(SanitizedValue(v)) == SanitizedValue(v);
        assert r[0] == (d[0].0, SanitizedValue(v)) && r[1..] == rest;
        assert SanitizedFields(r) == [(d[0].0, SanitizedValue(SanitizedValue(v)))] + SanitizedFields(rest);
      } else {
        assert SanitizedFields(d) == [] + rest == rest;
        assert SanitizedFields(rest) == rest;
      }
    }
  }

  /** A non-dict, non-string response keeps at most 500 characters of its text and no ellipsis is added. */
  lemma OtherResponseShort(response: Json)
    requires !response.JObj? && !response.JStr?
    ensures var r := SanitizedResponse(response);
            && |r| == 1 && r[0].0 == "content" && r[0].1.JStr?
            && |r[0].1.s| <= MaxValueLength && r[0].1.s == Str(response)[..|r[0].1.s|]
  {
  }

  /** One logged interaction; the timestamp and processing time are not modelled. */
  datatype ConversationEntry = ConversationEntry(
    userId: int,
    username: Option<string>,
    messageType: string,
    content: string,
    response: Dict,
    videoGenerated: bool,
    error: Option<string>)

  /** The entry `log_interaction` builds: the input cut to 1000 characters, the response sanitised. */
  function NewEntry(userId: int, username: Option<string>, messageType: string, content: string,
                    response: Json, videoGenerated: bool, error: Option<string>): (e: ConversationEntry)
    ensures |e.content| <= |content| && |e.content| <= MaxContentLength && e.content == content[..|e.content|]
    ensures |content| <= MaxContentLength ==> e.content == content
    ensures |content| > MaxContentLength ==> |e.content| == MaxContentLength
    ensures e.response == SanitizedResponse(response)
    ensures e.userId == userId && e.username == username && e.messageType == messageType
    ensures e.videoGenerated == videoGenerated && e.error == error
  {
    ConversationEntry(userId, username, messageType, Take(content, MaxContentLength),
                      SanitizedResponse(response), videoGenerated, error)
  }
}
