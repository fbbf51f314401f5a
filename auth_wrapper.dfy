/** The authorization redirect and the nonce that goes into it. */
module AuthWrapper {
  import opened Text
  import opened App

  // ---------------------------------------------------------------- nonce

  /** `str::replace` with one-character pattern and replacement: every `from` becomes `to`,
      everything else stays where it is. */
  function Replace(s: string, from: char, to: char): (r: string)
    ensures |r| == |s|
    ensures forall i | 0 <= i < |s| :: r[i] == if s[i] == from then to else s[i]
  {
    if s == [] then [] else [if s[0] == from then to else s[0]] + Replace(s[1..], from, to)
  }

  /** The step of `new_nonce` after the random source: `+` becomes `-` and `/` becomes `_`,
      so the nonce is URL-safe; nothing else changes and the length is kept. */
  function SanitizeNonce(raw: string): (r: string)
    ensures |r| == |raw|
    ensures forall i | 0 <= i < |raw| ::
      r[i] == if raw[i] == '+' then '-' else if raw[i] == '/' then '_' else raw[i]
    ensures '+' !in r && '/' !in r
  {
    Replace(Replace(raw, '+', '-'), '/', '_')
  }

  /** A sanitised nonce is left as it is by sanitising again. */
  lemma SanitizeIdempotent(raw: string)
    ensures SanitizeNonce(SanitizeNonce(raw)) == SanitizeNonce(raw)
  {
    var once := SanitizeNonce(raw);
    assert forall i | 0 <= i < |once| :: once[i] != '+' && once[i] != '/';
  }

  /** A nonce that is already URL-safe is kept unchanged. */
  lemma SanitizeKeepsSafe(raw: string)
    requires '+' !in raw && '/' !in raw
    ensures SanitizeNonce(raw) == raw
  {
    assert forall i | 0 <= i < |raw| :: raw[i] != '+' && raw[i] != '/';
  }

  // ---------------------------------------------------------------- authorization URI

  const AUTHORIZE_PATH := "/admin/oauth/authorize?client_id="

  const GRANT_OPTIONS := "&grant_options[]="

  /** `new_auth_uri`: the fields substituted into the template as they are, without
      percent-encoding; the scopes joined with commas. The result is the five query
      parameters in template order joined with `&`; it always starts with `https://` and the
      shop, and ends with the grant option naming the access mode. */
  function NewAuthUri(app: ShopifyApp, shop: string, returnUri: string, nonce: string): (r: string)
    ensures r == Join(AuthUriFields(app, shop, returnUri, nonce), "&")
    ensures |r| >= 8 + |shop| + |GRANT_OPTIONS| + |app.accessMode|
    ensures r[..8 + |shop|] == "https://" + shop
    ensures r[|r| - |GRANT_OPTIONS| - |app.accessMode|..] == GRANT_OPTIONS + app.accessMode
  {
    var r := "https://" + shop + AUTHORIZE_PATH + app.credentials.apiKey
      + "&scope=" + Join(app.scopes, ",")
      + "&redirect_uri=" + returnUri
      + "&state=" + nonce
      + GRANT_OPTIONS + app.accessMode;
    var head := "https://" + shop;
    var p0 := head + AUTHORIZE_PATH + app.credentials.apiKey;
    var scope, mode := Join(app.scopes, ","), app.accessMode;
    var front := p0 + "&scope=" + scope + "&redirect_uri=" + returnUri + "&state=" + nonce;
    var rest := "scope=" + scope + "&" + ("redirect_uri=" + returnUri + "&"
      + ("state=" + nonce + "&" + ("grant_options[]=" + mode)));
    Regroup(p0, scope, returnUri, nonce, mode);
    assert r == p0 + "&" + rest;
    assert r == Join(AuthUriFields(app, shop, returnUri, nonce), "&") by {
      JoinFive(AuthUriFields(app, shop, returnUri, nonce), "&");
    }
    assert r[..|head|] == head by {
      PrefixKept(p0 + "&", rest, |head|);
      PrefixKept(p0, "&", |head|);
      PrefixKept(head + AUTHORIZE_PATH, app.credentials.apiKey, |head|);
      PrefixKept(head, AUTHORIZE_PATH, |head|);
    }
    assert r == front + (GRANT_OPTIONS + mode);
    assert |front| >= |head|;
    r
  }

  /** Appending keeps every prefix. */
  lemma PrefixKept(a: string, b: string, n: nat)
    requires n <= |a|
    ensures (a + b)[..n] == a[..n]
  {
  }

  /** The scope field is empty for no scopes and the scope itself for one, whatever the
      scopes hold. */
  lemma ScopeFieldFew(scopes: seq<string>)
    ensures scopes == [] ==> Join(scopes, ",") == ""
    ensures |scopes| == 1 ==> Join(scopes, ",") == scopes[0]
  {
  }

  /** Otherwise the scope field has one comma between neighbours, so that when no scope holds
      a comma there are n - 1 commas and the field splits back into the scopes. */
  lemma ScopeField(scopes: seq<string>)
    requires forall i | 0 <= i < |scopes| :: ',' !in scopes[i]
    ensures multiset(Join(scopes, ","))[','] == if scopes == [] then 0 else |scopes| - 1
    ensures scopes != [] ==> Split(Join(scopes, ","), ',') == scopes
  {
    JoinSeparatorCount(scopes, ',');
    if scopes != [] {
      SplitJoin(scopes, ',');
    }
  }

  /** The five query parameters of the redirect in template order, the first one carrying
      the scheme, host and path in front of `client_id`. */
  function AuthUriFields(app: ShopifyApp, shop: string, returnUri: string, nonce: string): seq<string>
  {
    [ "https://" + shop + AUTHORIZE_PATH + app.credentials.apiKey,
      "scope=" + Join(app.scopes, ","),
      "redirect_uri=" + returnUri,
      "state=" + nonce,
      "grant_options[]=" + app.accessMode ]
  }

  /** The template with the separators between its parameters made explicit. */
  lemma Regroup(p0: string, scope: string, returnUri: string, nonce: string, mode: string)
    ensures p0 + "&scope=" + scope + "&redirect_uri=" + returnUri + "&state=" + nonce
        + GRANT_OPTIONS + mode
      == p0 + "&" + ("scope=" + scope + "&" + ("redirect_uri=" + returnUri + "&"
        + ("state=" + nonce + "&" + ("grant_options[]=" + mode))))
  {
    var q3 := "state=" + nonce + "&" + ("grant_options[]=" + mode);
    var q2 := "redirect_uri=" + returnUri + "&" + q3;
    var head := p0 + "&scope=" + scope + "&redirect_uri=" + returnUri;
    RegroupTail(head, nonce, mode);
    assert "&scope=" == "&" + "scope=";
    assert "&redirect_uri=" == "&" + "redirect_uri=";
    Glue(p0 + "&scope=" + scope, "redirect_uri=", returnUri, "&" + q3);
    Glue(p0, "scope=", scope, "&" + q2);
  }

  /** The last two parameters of the template, with their separators made explicit. */
  lemma RegroupTail(head: string, nonce: string, mode: string)
    ensures head + "&state=" + nonce + GRANT_OPTIONS + mode
      == head + ("&" + ("state=" + nonce + "&" + ("grant_options[]=" + mode)))
  {
    var f4 := "grant_options[]=" + mode;
    assert "&state=" == "&" + "state=";
    assert GRANT_OPTIONS == "&" + "grant_options[]=";
    calc {
      head + "&state=" + nonce + GRANT_OPTIONS + mode;
      { Glue(head + "&state=" + nonce, "grant_options[]=", mode, []); }
      head + "&state=" + nonce + ("&" + f4);
      { Glue(head, "state=", nonce, "&" + f4); }
      head + ("&" + ("state=" + nonce + "&" + f4));
    }
  }

  /** `Join` on five parts, written out. */
  lemma JoinFive<T>(f: seq<seq<T>>, sep: seq<T>)
    requires |f| == 5
    ensures Join(f, sep) == f[0] + sep + (f[1] + sep + (f[2] + sep + (f[3] + sep + f[4])))
  {
    assert f[3..] == [f[3], f[4]] && f[3..][1..] == [f[4]];
    assert Join(f[3..], sep) == f[3] + sep + f[4];
    assert f[2..][0] == f[2] && f[2..][1..] == f[3..];
    assert Join(f[2..], sep) == f[2] + sep + Join(f[3..], sep);
    assert f[1..][0] == f[1] && f[1..][1..] == f[2..];
    assert Join(f[1..], sep) == f[1] + sep + Join(f[2..], sep);
  }

  /** One parameter with its separator moved under the parameters after it. */
  lemma Glue(head: string, name: string, field: string, tail: string)
    ensures head + ("&" + name) + field + tail == head + ("&" + (name + field + tail))
  {
  }

  /** When none of the substituted fields holds `&`, splitting the URI at `&` gives back
      exactly the five query parameters in template order, each with its field. */
  lemma AuthUriParameters(app: ShopifyApp, shop: string, returnUri: string, nonce: string)
    requires '&' !in shop && '&' !in app.credentials.apiKey && '&' !in returnUri
    requires '&' !in nonce && '&' !in app.accessMode
    requires forall i | 0 <= i < |app.scopes| :: '&' !in app.scopes[i]
    ensures Split(NewAuthUri(app, shop, returnUri, nonce), '&')
      == AuthUriFields(app, shop, returnUri, nonce)
  {
    var f := AuthUriFields(app, shop, returnUri, nonce);
    FieldsAvoid(app, shop, returnUri, nonce);
    assert forall i | 0 <= i < |f| :: '&' !in f[i] by {
      assert '&' !in f[0] && '&' !in f[1] && '&' !in f[2] && '&' !in f[3] && '&' !in f[4];
    }
    SplitJoin(f, '&');
  }

  /** The template's own text around the fields holds no `&`. */
  lemma FieldsAvoid(app: ShopifyApp, shop: string, returnUri: string, nonce: string)
    requires '&' !in shop && '&' !in app.credentials.apiKey
    requires '&' !in nonce && '&' !in app.accessMode
    requires forall i | 0 <= i < |app.scopes| :: '&' !in app.scopes[i]
    ensures var f := AuthUriFields(app, shop, returnUri, nonce);
      && '&' !in f[0] && '&' !in f[1] && '&' !in f[3] && '&' !in f[4]
      && ('&' !in returnUri ==> '&' !in f[2])
  {
    JoinAvoids(app.scopes, ",", '&');
    HostAvoids(shop, app.credentials.apiKey);
    assert '&' !in "scope=" && '&' !in "state=" && '&' !in "grant_options[]=";
    assert '&' !in "redirect_uri=";
  }

  lemma HostAvoids(shop: string, apiKey: string)
    requires '&' !in shop && '&' !in apiKey
    ensures '&' !in "https://" + shop + AUTHORIZE_PATH + apiKey
  {
    assert '&' !in "https://" && '&' !in AUTHORIZE_PATH;
  }

  /** Since nothing is percent-encoded, an `&` inside the return address ends the
      `redirect_uri` parameter early, and what follows it arrives as a parameter of its own. */
  lemma ReturnUriInjects(app: ShopifyApp, shop: string, before: string, after: string, nonce: string)
    requires '&' !in shop && '&' !in app.credentials.apiKey
    requires '&' !in before && '&' !in after
    requires '&' !in nonce && '&' !in app.accessMode
    requires forall i | 0 <= i < |app.scopes| :: '&' !in app.scopes[i]
    ensures Split(NewAuthUri(app, shop, before + "&" + after, nonce), '&') ==
      [ "https://" + shop + AUTHORIZE_PATH + app.credentials.apiKey,
        "scope=" + Join(app.scopes, ","),
        "redirect_uri=" + before,
        after,
        "state=" + nonce,
        "grant_options[]=" + app.accessMode ]
  {
    var f := AuthUriFields(app, shop, before + "&" + after, nonce);
    assert f[2] == "redirect_uri=" + before + ['&'] + after;
    JoinSplitsPart(f, 2, "redirect_uri=" + before, after, '&');
    var g := f[..2] + ["redirect_uri=" + before, after] + f[3..];
    FieldsAvoid(app, shop, before, nonce);
    assert g == [f[0], f[1], "redirect_uri=" + before, after, f[3], f[4]];
    assert forall i | 0 <= i < |g| :: '&' !in g[i] by {
      assert '&' !in f[0] && '&' !in f[1] && '&' !in f[3] && '&' !in f[4];
      assert '&' !in "redirect_uri=" + before;
    }
    SplitJoin(g, '&');
  }
}
