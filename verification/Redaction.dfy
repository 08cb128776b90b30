/** Redacting secrets from the diagnostics bundle. */
module Redaction {
  import opened Json

  const SECRET_KEYS: seq<string> :=
    ["token", "secret", "password", "api_key", "apikey", "private_key", "privatekey",
     "seed", "mnemonic", "pairing_code", "pairing_secret"]

  const REDACTED: Json := String("[REDACTED]")

  predicate OccursAt(text: string, part: string, i: nat) {
    i + |part| <= |text| && text[i..i + |part|] == part
  }

  predicate Contains(text: string, part: string) {
    exists i :: 0 <= i <= |text| && OccursAt(text, part, i)
  }

  /** A key is secret when its lowercase form contains one of the listed words.
      `lower` stands for Unicode lowercasing. */
  predicate IsSecretKey(lower: string -> string, key: string) {
    exists i :: 0 <= i < |SECRET_KEYS| && Contains(lower(key), SECRET_KEYS[i])
  }

  const WORDS: set<string> :=
    {"token", "secret", "password", "api_key", "apikey", "private_key", "privatekey",
     "seed", "mnemonic", "pairing_code", "pairing_secret"}

  ghost predicate HoldsWord(text: string, before: string, word: string, after: string) {
    text == before + word + after
  }

  /** Whatever stands before and after it, a listed word in the lowercase form of a key makes
      the key secret, and nothing else does. */
  lemma {:induction false} SecretIffHoldsWord(lower: string -> string, key: string)
    ensures IsSecretKey(lower, key)
            <==> exists before, word, after :: word in WORDS && HoldsWord(lower(key), before, word, after)
  {
    var text := lower(key);
    if IsSecretKey(lower, key) {
      var n :| 0 <= n < |SECRET_KEYS| && Contains(text, SECRET_KEYS[n]);
      var word := SECRET_KEYS[n];
      var i :| 0 <= i <= |text| && OccursAt(text, word, i);
      assert text == text[..i] + word + text[i + |word|..];
      assert HoldsWord(text, text[..i], word, text[i + |word|..]);
    }
    forall before, word, after | word in WORDS && HoldsWord(text, before, word, after)
      ensures IsSecretKey(lower, key)
    {
      assert OccursAt(text, word, |before|);
      WordIsListed(word);
      var n :| 0 <= n < |SECRET_KEYS| && SECRET_KEYS[n] == word;
    }
  }

  lemma {:induction false} WordIsListed(word: string)
    requires word in WORDS
    ensures exists n :: 0 <= n < |SECRET_KEYS| && SECRET_KEYS[n] == word
  {
    assert word in SECRET_KEYS;
  }

  /** A value under such a key is replaced, at any depth of the document around it. */
  lemma {:induction false} WordIsRedacted(lower: string -> string, fields: map<string, Json>, key: string, before: string,
                                          word: string, after: string)
    requires key in fields && word in WORDS && lower(key) == before + word + after
    ensures
      var r := Redact(lower, Object(fields));
      r.Object? && key in r.fields && r.fields[key] == String("[REDACTED]")
  {
    SecretIffHoldsWord(lower, key);
    assert HoldsWord(lower(key), before, word, after);
  }

  function Redact(lower: string -> string, v: Json): (r: Json)
    decreases v
  {
    match v
    case Object(fields) =>
      Object(map k | k in fields ::
        if IsSecretKey(lower, k) then REDACTED else Redact(lower, fields[k]))
    case Array(items) =>
      Array(seq(|items|, i requires 0 <= i < |items| => Redact(lower, items[i])))
    case _ => v
  }

  /** The traversal: secret values are overwritten, everything else is entered. */
  method RedactValue(lower: string -> string, v: Json) returns (r: Json)
    ensures r == Redact(lower, v)
    decreases v
  {
    match v
    case Object(fields) =>
      var out: map<string, Json> := map[];
      var left := fields.Keys;
      while left != {}
        invariant left <= fields.Keys
        invariant out.Keys == fields.Keys - left
        invariant forall k :: k in out ==> k in fields && out[k] == Redact(lower, v).fields[k]
      {
        var k :| k in left;
        if IsSecretKey(lower, k) {
          out := out[k := REDACTED];
        } else {
          var inner := RedactValue(lower, fields[k]);
          out := out[k := inner];
        }
        left := left - {k};
      }
      r := Object(out);
      assert out == Redact(lower, v).fields;
    case Array(items) =>
      var out: seq<Json> := [];
      for i := 0 to |items|
        invariant |out| == i
        invariant forall n :: 0 <= n < i ==> out[n] == Redact(lower, items[n])
      {
        var inner := RedactValue(lower, items[i]);
        out := out + [inner];
      }
      r := Array(out);
      assert out == Redact(lower, v).items;
    case _ =>
      r := v;
  }

  /** Equal everywhere except in values under secret keys. */
  ghost predicate SameButSecrets(lower: string -> string, a: Json, b: Json)
    decreases a
  {
    match a
    case Object(fields) =>
      b.Object? && fields.Keys == b.fields.Keys
      && forall k :: k in fields && !IsSecretKey(lower, k) ==>
           SameButSecrets(lower, fields[k], b.fields[k])
    case Array(items) =>
      b.Array? && |items| == |b.items|
      && forall i :: 0 <= i < |items| ==> SameButSecrets(lower, items[i], b.items[i])
    case _ => a == b
  }

  /** Every secret value is the placeholder, at any depth outside other secrets. */
  ghost predicate Clean(lower: string -> string, v: Json)
    decreases v
  {
    match v
    case Object(fields) =>
      forall k :: k in fields ==>
        if IsSecretKey(lower, k) then fields[k] == REDACTED else Clean(lower, fields[k])
    case Array(items) => forall i :: 0 <= i < |items| ==> Clean(lower, items[i])
    case _ => true
  }

  /**
    Redaction forgets exactly the secret values: two documents redact to the same one
    if and only if they agree outside values under secret keys.
   */
  lemma {:induction false} RedactsAlikeIffSameButSecrets(lower: string -> string, a: Json, b: Json)
    ensures Redact(lower, a) == Redact(lower, b) <==> SameButSecrets(lower, a, b)
    decreases a
  {
    match a
    case Object(fields) =>
      if b.Object? && fields.Keys == b.fields.Keys {
        forall k | k in fields
          ensures Redact(lower, fields[k]) == Redact(lower, b.fields[k])
                  <==> SameButSecrets(lower, fields[k], b.fields[k])
        {
          RedactsAlikeIffSameButSecrets(lower, fields[k], b.fields[k]);
        }
        ObjectsEqual(lower, fields, b.fields);
      } else if b.Object? {
        assert Redact(lower, a).fields.Keys == fields.Keys;
        assert Redact(lower, b).fields.Keys == b.fields.Keys;
      }
    case Array(items) =>
      if b.Array? && |items| == |b.items| {
        forall i | 0 <= i < |items|
          ensures Redact(lower, items[i]) == Redact(lower, b.items[i])
                  <==> SameButSecrets(lower, items[i], b.items[i])
        {
          RedactsAlikeIffSameButSecrets(lower, items[i], b.items[i]);
        }
        ArraysEqual(lower, items, b.items);
      } else if b.Array? {
        assert |Redact(lower, a).items| == |items| && |Redact(lower, b).items| == |b.items|;
      }
    case _ =>
  }

  lemma {:induction false} ObjectsEqual(lower: string -> string, a: map<string, Json>, b: map<string, Json>)
    requires a.Keys == b.Keys
    ensures Redact(lower, Object(a)) == Redact(lower, Object(b))
            <==> forall k :: k in a && !IsSecretKey(lower, k) ==> Redact(lower, a[k]) == Redact(lower, b[k])
  {
    var x, y := Redact(lower, Object(a)).fields, Redact(lower, Object(b)).fields;
    assert x.Keys == a.Keys == y.Keys;
    if x == y {
      forall k | k in a && !IsSecretKey(lower, k)
        ensures Redact(lower, a[k]) == Redact(lower, b[k])
      {
        assert x[k] == Redact(lower, a[k]) && y[k] == Redact(lower, b[k]);
      }
    } else {
      var k :| k in x && x[k] != y[k];
      assert !IsSecretKey(lower, k);
    }
  }

  lemma {:induction false} ArraysEqual(lower: string -> string, a: seq<Json>, b: seq<Json>)
    requires |a| == |b|
    ensures Redact(lower, Array(a)) == Redact(lower, Array(b))
            <==> forall i :: 0 <= i < |a| ==> Redact(lower, a[i]) == Redact(lower, b[i])
  {
    var x, y := Redact(lower, Array(a)).items, Redact(lower, Array(b)).items;
    assert |x| == |a| == |y|;
    assert forall i :: 0 <= i < |a| ==> x[i] == Redact(lower, a[i]) && y[i] == Redact(lower, b[i]);
  }

  /** Nothing outside secret values changes. */
  lemma {:induction false} RedactKeepsTheRest(lower: string -> string, v: Json)
    ensures SameButSecrets(lower, v, Redact(lower, v))
    decreases v
  {
    match v
    case Object(fields) =>
      forall k | k in fields && !IsSecretKey(lower, k)
        ensures SameButSecrets(lower, fields[k], Redact(lower, v).fields[k])
      {
        RedactKeepsTheRest(lower, fields[k]);
      }
      assert Redact(lower, v).fields.Keys == fields.Keys;
    case Array(items) =>
      forall i | 0 <= i < |items|
        ensures SameButSecrets(lower, items[i], Redact(lower, v).items[i])
      {
        RedactKeepsTheRest(lower, items[i]);
      }
    case _ =>
  }

  /** No secret is left, and documents without secrets are exactly the fixed points. */
  lemma {:induction false} RedactedIsClean(lower: string -> string, v: Json)
    ensures Clean(lower, Redact(lower, v))
    ensures Clean(lower, v) <==> Redact(lower, v) == v
    decreases v
  {
    match v
    case Object(fields) =>
      var r := Redact(lower, v).fields;
      forall k | k in fields && !IsSecretKey(lower, k)
        ensures Clean(lower, r[k]) && (Clean(lower, fields[k]) <==> r[k] == fields[k])
      {
        RedactedIsClean(lower, fields[k]);
      }
      assert r.Keys == fields.Keys;
      if Clean(lower, v) {
        assert r == fields;
      }
    case Array(items) =>
      var r := Redact(lower, v).items;
      forall i | 0 <= i < |items|
        ensures Clean(lower, r[i]) && (Clean(lower, items[i]) <==> r[i] == items[i])
      {
        RedactedIsClean(lower, items[i]);
      }
      if Clean(lower, v) {
        assert r == items;
      }
    case _ =>
  }

  lemma {:induction false} RedactTwice(lower: string -> string, v: Json)
    ensures Redact(lower, Redact(lower, v)) == Redact(lower, v)
  {
    RedactedIsClean(lower, v);
    RedactedIsClean(lower, Redact(lower, v));
  }
}
