/** The browser SDK, templates/uid2-sdk.tpl.js: the client's own email
    canonicalisation, the `__uid_2` cookie read and written through
    `document.cookie`, and the token requests sent to the gateway.
    `encodeURIComponent`, `decodeURIComponent`, `JSON`, the digest and
    `XMLHttpRequest` are the browser's and enter as parameters. */
module ClientSdk {
  import opened Wrappers
  import opened Text
  import Server = EmailNormalizer

  // ---------------------------------------------------------------------------
  // normalize_email

  /** `email.trim().toLowerCase()` */
  function Folded(email: string): string {
    Lower(EcmaTrim(email))
  }

  /** The client's `normalize_email`: trim, lower-case, split on every `@`;
      when the second piece is `gmail.com`, the first piece loses its first
      `.` (the pattern `/\./i` has no `g` flag) and is cut at the first `+`,
      and all pieces are joined back. It never throws. */
  function NormalizeEmail(email: string): string {
    Rewrite(Folded(email))
  }

  /** The rest of the client's `normalize_email`, on the trimmed,
      lower-cased text. */
  function Rewrite(e: string): string {
    var parts := SplitOn(e, "@");
    if |parts| >= 2 && parts[1] == "gmail.com" then
      Join([SplitOn(RemoveFirst(parts[0], '.'), "+")[0]] + parts[1..], "@")
    else
      e
  }

  /** The client's Gmail user part: first `.` removed, cut at the first `+`. */
  function GmailUser(user: string): (r: string)
    ensures '+' !in r
    ensures forall x :: x in r ==> x in user
  {
    TakeUntil(RemoveFirst(user, '.'), '+')
  }

  /** Without an `@`, `parts[1]` is undefined and the folded text comes back. */
  lemma NoAtUnchanged(email: string)
    requires '@' !in Folded(email)
    ensures NormalizeEmail(email) == Folded(email)
  {
    NoAtOn(Folded(email));
  }

  lemma NoAtOn(e: string)
    requires '@' !in e
    ensures Rewrite(e) == e
  {
    SplitNoSeparator(e, '@');
  }

  /** Whether the text between the first `@` and the next one (or the end)
      is `gmail.com`. */
  predicate GmailPiece(e: string)
    requires '@' in e
  {
    TakeUntil(e[IndexOf(e, '@') + 1..], '@') == "gmail.com"
  }

  /** Any other second piece: the folded text, dots and plus signs kept. */
  lemma OtherDomainUnchanged(email: string)
    requires '@' in Folded(email) && !GmailPiece(Folded(email))
    ensures NormalizeEmail(email) == Folded(email)
  {
    OtherOn(Folded(email));
  }

  lemma OtherOn(e: string)
    requires '@' in e && !GmailPiece(e)
    ensures Rewrite(e) == e
  {
    SplitSecond(e, '@');
    var parts := SplitOn(e, "@");
    assert parts[1] != "gmail.com";
  }

  /** Gmail: only the user part changes, everything from the first `@` on,
      further `@` pieces included, is kept. */
  lemma GmailRule(email: string)
    requires '@' in Folded(email) && GmailPiece(Folded(email))
    ensures var e := Folded(email);
      NormalizeEmail(email) == GmailUser(e[..IndexOf(e, '@')]) + e[IndexOf(e, '@')..]
  {
    GmailOn(Folded(email));
  }

  lemma GmailOn(e: string)
    requires '@' in e && GmailPiece(e)
    ensures Rewrite(e) == GmailUser(e[..IndexOf(e, '@')]) + e[IndexOf(e, '@')..]
  {
    GmailBranch(e);
  }

  /** The rewrite of the Gmail branch of `NormalizeEmail` on the folded
      text `e`, whatever its second piece. */
  lemma GmailBranch(e: string)
    requires '@' in e
    ensures var parts := SplitOn(e, "@"); var i := IndexOf(e, '@');
      |parts| >= 2 && parts[1] == TakeUntil(e[i + 1..], '@') &&
      Join([SplitOn(RemoveFirst(parts[0], '.'), "+")[0]] + parts[1..], "@") == GmailUser(e[..i]) + e[i..]
  {
    var i := IndexOf(e, '@');
    var rest := SplitOn(e[i + 1..], "@");
    SplitAtFirst(e, '@');
    assert SplitOn(e, "@")[1..] == rest;
    SplitHead(e[i + 1..], '@');
    SplitHead(RemoveFirst(e[..i], '.'), '+');
    Rejoin(GmailUser(e[..i]), e, i);
  }

  /** Joining a new first piece to the pieces after the first `@` puts the
      rest of the text back unchanged. */
  lemma Rejoin(user: string, e: string, i: nat)
    requires i < |e| && e[i] == '@'
    ensures Join([user] + SplitOn(e[i + 1..], "@"), "@") == user + e[i..]
  {
    JoinCons(user, SplitOn(e[i + 1..], "@"), "@");
    JoinSplit(e[i + 1..], "@");
    assert e[i..] == "@" + e[i + 1..];
  }

  /** With at most one `.` in the user part, removing the first `.` removes
      them all. */
  lemma RemoveFirstErases(user: string)
    requires multiset(user)['.'] <= 1
    ensures RemoveFirst(user, '.') == Erase(user, '.')
  {
    if '.' in user {
      var i := IndexOf(user, '.');
      assert user == user[..i] + ['.'] + user[i + 1..];
      assert multiset(user)['.'] == multiset(user[..i])['.'] + 1 + multiset(user[i + 1..])['.'];
      EraseSkips(user[..i], user[i + 1..]);
    }
  }

  lemma {:induction false} EraseSkips(a: string, b: string)
    requires '.' !in a && '.' !in b
    ensures Erase(a + ['.'] + b, '.') == a + b
    decreases |a|
  {
    DropHead(a, '.', b);
    if a != [] {
      EraseSkips(a[1..], b);
    }
  }

  /** With one `@`, nothing after it is another `@`. */
  lemma OneAt(e: string)
    requires multiset(e)['@'] == 1
    ensures '@' in e && '@' !in e[IndexOf(e, '@') + 1..]
  {
    var i := IndexOf(e, '@');
    SplitCount(e, '@');
    SplitAtFirst(e, '@');
    SplitCount(e[i + 1..], '@');
  }

  /** With one `@`, the client's second piece is all of the domain. */
  lemma GmailPieceIff(e: string)
    requires multiset(e)['@'] == 1
    ensures '@' in e && (GmailPiece(e) <==> e[IndexOf(e, '@') + 1..] == "gmail.com")
  {
    OneAt(e);
  }

  /** Where the two normalisers see the same trimmed text and the server
      accepts it, they agree whenever the user part has at most one `.`. */
  lemma AgreesWithServer(email: string)
    requires Server.Folded(email) == Folded(email)
    requires Server.NormalizeEmail(email).Ok?
    requires var e := Folded(email); '@' in e && multiset(e[..IndexOf(e, '@')])['.'] <= 1
    ensures Server.NormalizeEmail(email) == Ok(NormalizeEmail(email))
  {
    AgreeOn(Folded(email));
  }

  /** `AgreesWithServer` on the folded text. */
  lemma AgreeOn(e: string)
    requires Server.Rewrite(e).Ok?
    requires '@' in e && multiset(e[..IndexOf(e, '@')])['.'] <= 1
    ensures Server.Rewrite(e) == Ok(Rewrite(e))
  {
    SplitCount(e, '@');
    if e[IndexOf(e, '@') + 1..] == "gmail.com" {
      AgreeGmail(e);
    } else {
      AgreeOther(e);
    }
  }

  lemma AgreeGmail(e: string)
    requires multiset(e)['@'] == 1 && multiset(e[..IndexOf(e, '@')])['.'] <= 1
    requires e[IndexOf(e, '@') + 1..] == "gmail.com"
    ensures Server.Rewrite(e) == Ok(Rewrite(e))
  {
    var i := IndexOf(e, '@');
    GmailPieceIff(e);
    Server.GmailBranch(e);
    GmailBranch(e);
    RemoveFirstErases(e[..i]);
  }

  lemma AgreeOther(e: string)
    requires multiset(e)['@'] == 1 && e[IndexOf(e, '@') + 1..] != "gmail.com"
    ensures Server.Rewrite(e) == Ok(Rewrite(e))
  {
    GmailPieceIff(e);
    SplitAtOnly(e, '@');
    SplitSecond(e, '@');
  }

  /** They also part ways on white space: a leading character that Python's
      `strip` removes and ECMAScript's `trim` keeps (U+001C to U+001F,
      U+0085) is dropped by the server and kept by the client, whatever the
      dots. */
  lemma WhiteSpaceDiffers(c: char, t: string)
    requires IsPythonSpace(c) && !IsEcmaSpace(c)
    requires t != [] && !IsEcmaSpace(t[|t| - 1]) && IsLower(t)
    requires '@' in t && TakeUntil(t[IndexOf(t, '@') + 1..], '@') != "gmail.com"
    ensures Server.NormalizeEmail([c] + t) == Server.NormalizeEmail(t)
    ensures NormalizeEmail([c] + t) == [c] + t
    ensures Server.NormalizeEmail([c] + t) != Ok(NormalizeEmail([c] + t))
  {
    ServerDropsSpace(c, t);
    ClientKeepsSpace(c, t);
    if Server.NormalizeEmail(t).Ok? {
      Server.NormalizeShortens(t);
    }
  }

  /** `"\U{1C}a@x"`: the server gives `a@x`, the client the input itself. */
  lemma WhiteSpaceExample()
    ensures Server.NormalizeEmail("\U{1C}a@x") == Ok("a@x")
    ensures NormalizeEmail("\U{1C}a@x") == "\U{1C}a@x"
  {
    WhiteSpaceInstance("\U{1C}a@x", '\U{1C}', "a@x", "x");
  }

  lemma WhiteSpaceInstance(email: string, c: char, t: string, domain: string)
    requires c == '\U{1C}' && t == "a@x" && domain == "x" && email == [c] + t
    ensures Server.NormalizeEmail(email) == Ok(t)
    ensures NormalizeEmail(email) == email
  {
    PlainAddress(t, domain);
    ServerKeeps(t);
    WhiteSpaceDiffers(c, t);
  }

  /** The facts about `"a@x"` the two lemmas above ask for. */
  lemma PlainAddress(t: string, domain: string)
    requires t == "a@x" && domain == "x"
    ensures t != [] && !IsPythonSpace(t[0]) && !IsPythonSpace(t[|t| - 1]) && !IsEcmaSpace(t[|t| - 1])
    ensures IsLower(t) && '@' in t && multiset(t)['@'] == 1
    ensures t[IndexOf(t, '@') + 1..] == domain && TakeUntil(domain, '@') == domain && domain != "gmail.com"
  {
    PlainEnds(t);
    PlainCount(t);
    PlainDomain(t, domain);
  }

  lemma PlainEnds(t: string)
    requires t == "a@x"
    ensures t != [] && !IsPythonSpace(t[0]) && !IsPythonSpace(t[|t| - 1]) && !IsEcmaSpace(t[|t| - 1])
    ensures IsLower(t)
  {
    assert forall x :: x in t ==> x == 'a' || x == '@' || x == 'x';
  }

  lemma PlainCount(t: string)
    requires t == "a@x"
    ensures '@' in t && multiset(t)['@'] == 1
  {
    assert t == ['a'] + ['@'] + ['x'];
  }

  lemma PlainDomain(t: string, domain: string)
    requires t == "a@x" && domain == "x"
    ensures '@' in t && t[IndexOf(t, '@') + 1..] == domain && TakeUntil(domain, '@') == domain && domain != "gmail.com"
  {
    assert t[0] != '@' && t[1..][0] == '@';
    assert t[2..] == domain;
  }

  /** A lower-case address with one `@`, another domain and no white space
      at either end is its own server normalisation. */
  lemma ServerKeeps(t: string)
    requires t != [] && !IsPythonSpace(t[0]) && !IsPythonSpace(t[|t| - 1]) && IsLower(t)
    requires multiset(t)['@'] == 1 && t[IndexOf(t, '@') + 1..] != "gmail.com"
    ensures Server.NormalizeEmail(t) == Ok(t)
  {
    TrimFixed(t, IsPythonSpace);
    LowerFixed(t);
    Server.OtherDomainRule(t);
  }

  lemma ServerDropsSpace(c: char, t: string)
    requires IsPythonSpace(c)
    ensures Server.NormalizeEmail([c] + t) == Server.NormalizeEmail(t)
  {
    assert ([c] + t)[1..] == t;
    TrimDropsFirst([c] + t, IsPythonSpace);
  }

  lemma ClientKeepsSpace(c: char, t: string)
    requires !IsEcmaSpace(c) && c != '@' && LowerChar(c) == c
    requires t != [] && !IsEcmaSpace(t[|t| - 1]) && IsLower(t)
    requires '@' in t && TakeUntil(t[IndexOf(t, '@') + 1..], '@') != "gmail.com"
    ensures NormalizeEmail([c] + t) == [c] + t
  {
    FoldedKeeps(c, t);
    RewriteKeeps(c, t);
  }

  lemma FoldedKeeps(c: char, t: string)
    requires !IsEcmaSpace(c) && LowerChar(c) == c
    requires t != [] && !IsEcmaSpace(t[|t| - 1]) && IsLower(t)
    ensures Folded([c] + t) == [c] + t
  {
    var email := [c] + t;
    assert email[|email| - 1] == t[|t| - 1];
    TrimFixed(email, IsEcmaSpace);
    assert IsLower(email) by {
      forall x | x in email ensures LowerChar(x) == x {
        assert x == c || x in t;
      }
    }
    LowerFixed(email);
  }

  lemma RewriteKeeps(c: char, t: string)
    requires c != '@' && '@' in t && TakeUntil(t[IndexOf(t, '@') + 1..], '@') != "gmail.com"
    ensures Rewrite([c] + t) == [c] + t
  {
    var email := [c] + t;
    assert IndexOf(email, '@') == IndexOf(t, '@') + 1 by {
      assert email[1..] == t;
    }
    assert email[IndexOf(email, '@') + 1..] == t[IndexOf(t, '@') + 1..];
    OtherOn(email);
  }

  /** They part ways on a Gmail user part with two or more dots and no `+`:
      the client keeps every dot after the first. */
  lemma DiffersFromServer(email: string)
    requires Server.Folded(email) == Folded(email)
    requires var e := Folded(email); multiset(e)['@'] == 1
    requires var e := Folded(email); var i := IndexOf(e, '@');
      e[i + 1..] == "gmail.com" && '+' !in e[..i] && multiset(e[..i])['.'] >= 2
    ensures Server.NormalizeEmail(email).Ok?
    ensures Server.NormalizeEmail(email) != Ok(NormalizeEmail(email))
  {
    DifferOn(Folded(email));
  }

  /** `DiffersFromServer` on the folded text. */
  lemma DifferOn(e: string)
    requires multiset(e)['@'] == 1
    requires var i := IndexOf(e, '@');
      e[i + 1..] == "gmail.com" && '+' !in e[..i] && multiset(e[..i])['.'] >= 2
    ensures Server.Rewrite(e).Ok?
    ensures Server.Rewrite(e) != Ok(Rewrite(e))
  {
    var i := IndexOf(e, '@');
    GmailPieceIff(e);
    SplitAtOnly(e, '@');
    Server.GmailBranch(e);
    GmailBranch(e);
    UsersDiffer(e[..i], e[i..]);
  }

  lemma UsersDiffer(user: string, domain: string)
    requires '+' !in user && multiset(user)['.'] >= 2
    ensures Server.GmailUser(user) + domain != GmailUser(user) + domain
  {
    var kept := RemoveFirst(user, '.');
    assert '+' !in kept;
    assert '.' in kept by {
      assert multiset(kept)['.'] >= 1;
    }
    assert GmailUser(user) == kept;
    var server := Server.GmailUser(user);
    var k :| 0 <= k < |kept| && kept[k] == '.';
    if |server| == |kept| {
      assert (server + domain)[k] == server[k] != '.';
      assert (kept + domain)[k] == '.';
    } else {
      assert |server + domain| != |kept + domain|;
    }
  }

  // ---------------------------------------------------------------------------
  // What the browser provides

  /** A value `JSON.parse` yields; a number is kept as the text
      `Number.prototype.toString` gives for it. */
  datatype Json =
    | JNull
    | JBool(b: bool)
    | JNumber(text: string)
    | JString(s: string)
    | JArray(items: seq<Json>)
    | JObject(fields: map<string, Json>)

  /** The built-ins the SDK calls. */
  datatype Browser = Browser(
    encode: string -> string,          // encodeURIComponent
    decode: string -> Option<string>,  // decodeURIComponent; None when it throws URIError
    parse: string -> Option<Json>,     // JSON.parse; None when it throws SyntaxError
    stringify: Json -> string,         // JSON.stringify
    digest: string -> string,          // base64_encoded_sha256
    xhr: string -> Option<string>)     // a synchronous GET: the response text, None when `send` throws NetworkError

  predicate IsDigits(s: string) {
    |s| > 0 && forall k :: 0 <= k < |s| ==> '0' <= s[k] <= '9'
  }

  /** Number text that `Number.prototype.toString` gives back unchanged for
      the number it denotes: an optional `-`, a whole part without leading
      zeros, an optional fraction without trailing zeros, at most 15
      significant digits (so the double holds them exactly), no exponent,
      and not `-0`, which prints as `0`. */
  predicate PlainNumber(t: string) {
    var body := if |t| > 0 && t[0] == '-' then t[1..] else t;
    var whole := TakeUntil(body, '.');
    var frac := if |whole| < |body| then body[|whole| + 1..] else "";
    t != "-0" && IsDigits(whole) && (whole == "0" || whole[0] != '0')
    && (|whole| < |body| ==> IsDigits(frac) && frac[|frac| - 1] != '0')
    && (if whole == "0" then |frac| <= 6 else |whole| + |frac| <= 15)
  }

  /** A value `JSON.stringify` writes out and `JSON.parse` reads back as the
      same value: every number in it is plain (no `NaN` or `Infinity`, which
      are written as `null`, and no text that prints differently). */
  predicate Representable(j: Json)
    decreases j
  {
    match j
    case JNumber(t) => PlainNumber(t)
    case JArray(items) => forall k :: 0 <= k < |items| ==> Representable(items[k])
    case JObject(fields) => forall key :: key in fields ==> Representable(fields[key])
    case _ => true
  }

  /** What the SDK relies on from the browser: decoding undoes encoding,
      encoded text holds no `;` or `=`, parsing undoes `JSON.stringify` on
      representable values, and `JSON.parse("")` throws. */
  ghost predicate Sound(b: Browser) {
    (forall s :: b.decode(b.encode(s)) == Some(s))
    && (forall s :: ';' !in b.encode(s) && '=' !in b.encode(s))
    && (forall j :: Representable(j) ==> b.parse(b.stringify(j)) == Some(j))
    && b.parse("") == None
  }

  /** The exceptions the SDK code can raise. */
  datatype ClientError = UriError | SyntaxError | TypeError | NetworkError

  /** ECMAScript truthiness of a parsed value. */
  predicate Truthy(j: Json) {
    match j
    case JNull => false
    case JBool(b) => b
    case JNumber(t) => t != "0" && t != "-0" && t != "NaN"
    case JString(s) => s != ""
    case _ => true
  }

  /** `j[key]` on a value that is not `null`: the member of an object, or
      `undefined` (None). */
  function Property(j: Json, key: string): Option<Json> {
    if j.JObject? && key in j.fields then Some(j.fields[key]) else None
  }

  /** `typeof j === "object"` */
  predicate IsObject(j: Json) {
    j.JNull? || j.JArray? || j.JObject?
  }

  /** `String(v)`, None standing for `undefined`. */
  function ToText(v: Option<Json>): string {
    match v
    case None => "undefined"
    case Some(j) => JsString(j)
  }

  function JsString(j: Json): string
    decreases j
  {
    match j
    case JNull => "null"
    case JBool(b) => if b then "true" else "false"
    case JNumber(t) => t
    case JString(s) => s
    case JArray(items) =>
      Join(seq(|items|, k requires 0 <= k < |items| => if items[k].JNull? then "" else JsString(items[k])), ",")
    case JObject(_) => "[object Object]"
  }

  // ---------------------------------------------------------------------------
  // document.cookie

  datatype Cookie = Cookie(name: string, value: string)

  /** How `document.cookie` lists one cookie. */
  function Row(c: Cookie): string {
    c.name + "=" + c.value
  }

  function Rows(jar: seq<Cookie>): (rows: seq<string>)
    ensures |rows| == |jar|
  {
    if jar == [] then [] else [Row(jar[0])] + Rows(jar[1..])
  }

  /** What reading `document.cookie` gives. */
  function Serialize(jar: seq<Cookie>): string {
    Join(Rows(jar), "; ")
  }

  /** The browser keeps no `;` in names or values and no `=` in names. */
  predicate JarOk(jar: seq<Cookie>) {
    forall c :: c in jar ==> ';' !in c.name && '=' !in c.name && ';' !in c.value
  }

  /** Storing a cookie: an existing one of that name gets the new value in
      place, otherwise the cookie is appended. */
  function Put(jar: seq<Cookie>, name: string, value: string): (r: seq<Cookie>)
    ensures Cookie(name, value) in r
    ensures forall c :: c in r ==> c in jar || c == Cookie(name, value)
    ensures forall c :: c in jar && c.name != name ==> c in r
  {
    if jar == [] then [Cookie(name, value)]
    else if jar[0].name == name then [Cookie(name, value)] + jar[1..]
    else [jar[0]] + Put(jar[1..], name, value)
  }

  /** An expiry date in the past deletes every cookie of that name. */
  function Delete(jar: seq<Cookie>, name: string): (r: seq<Cookie>)
    ensures forall c :: c in r <==> c in jar && c.name != name
  {
    if jar == [] then []
    else if jar[0].name == name then Delete(jar[1..], name)
    else [jar[0]] + Delete(jar[1..], name)
  }

  /** No other cookie's row starts with `name`, so `getCookie(name)` cannot
      pick up a cookie whose name merely begins with it. */
  predicate Unshadowed(jar: seq<Cookie>, name: string) {
    forall c :: c in jar && c.name != name ==> !StartsWith(Row(c), name)
  }

  /** The first cookie of that name takes the new value at its place;
      every other position is unchanged. */
  lemma {:induction false} PutReplaces(jar: seq<Cookie>, name: string, value: string, k: nat)
    requires k < |jar| && jar[k].name == name
    requires forall i :: 0 <= i < k ==> jar[i].name != name
    ensures Put(jar, name, value) == jar[k := Cookie(name, value)]
  {
    if k > 0 {
      PutReplaces(jar[1..], name, value, k - 1);
      UpdateTail(jar, k, Cookie(name, value));
    }
  }

  /** Without a cookie of that name the new one goes at the end. */
  lemma {:induction false} PutAppends(jar: seq<Cookie>, name: string, value: string)
    requires forall k :: 0 <= k < |jar| ==> jar[k].name != name
    ensures Put(jar, name, value) == jar + [Cookie(name, value)]
  {
    if jar != [] {
      PutAppends(jar[1..], name, value);
      assert [jar[0]] + (jar[1..] + [Cookie(name, value)]) == jar + [Cookie(name, value)];
    }
  }

  /** `rows.find(row => row.startsWith(name))` */
  function FindRow(rows: seq<string>, name: string): (r: Option<string>)
    ensures r.Some? ==> r.value in rows && StartsWith(r.value, name)
    ensures r.None? <==> forall row :: row in rows ==> !StartsWith(row, name)
  {
    if rows == [] then None
    else if StartsWith(rows[0], name) then Some(rows[0])
    else FindRow(rows[1..], name)
  }

  /** `find` returns the first row that starts with `name`. */
  lemma {:induction false} FindFirst(rows: seq<string>, name: string, k: nat)
    requires k < |rows| && StartsWith(rows[k], name)
    requires forall i :: 0 <= i < k ==> !StartsWith(rows[i], name)
    ensures FindRow(rows, name) == Some(rows[k])
  {
    if k > 0 {
      FindFirst(rows[1..], name, k - 1);
    }
  }

  /** `decodeURIComponent` of the text, or the URIError it throws. */
  function Decoded(text: string, decode: string -> Option<string>): Result<Option<string>, ClientError> {
    match decode(text)
    case None => Err(UriError)
    case Some(v) => Ok(Some(v))
  }

  /** `getCookie(name)` on the text of `document.cookie`; `Ok(None)` is
      `undefined`. The value is the piece between the first and second `=`
      of the row; a row without `=` yields the text "undefined". */
  function ReadCookie(docCookie: string, name: string, decode: string -> Option<string>): (r: Result<Option<string>, ClientError>)
    ensures docCookie == "" ==> r == Ok(None)
    ensures (forall row :: row in SplitOn(docCookie, "; ") ==> !StartsWith(row, name)) ==> r == Ok(None)
    ensures r != Ok(None) ==> exists row :: row in SplitOn(docCookie, "; ") && row != "" && StartsWith(row, name)
  {
    if docCookie == "" then Ok(None)
    else match FindRow(SplitOn(docCookie, "; "), name)
      case None => Ok(None)
      case Some(row) =>
        if row == "" then Ok(None)
        else
          var pieces := SplitOn(row, "=");
          Decoded(if |pieces| >= 2 then pieces[1] else "undefined", decode)
  }

  /** `row.split("=")[1]`: the text between the first `=` and the next, or
      the text "undefined" when the row has no `=`. */
  function CookieValueText(row: string): string {
    if '=' in row then TakeUntil(row[IndexOf(row, '=') + 1..], '=') else "undefined"
  }

  /** `getCookie` reads the first row that starts with `name`: nothing when
      that row is empty, otherwise the decoded text after its first `=`. */
  lemma ReadCookieValue(docCookie: string, name: string, decode: string -> Option<string>, k: nat)
    requires docCookie != ""
    requires var rows := SplitOn(docCookie, "; ");
      k < |rows| && StartsWith(rows[k], name) && forall i :: 0 <= i < k ==> !StartsWith(rows[i], name)
    ensures var row := SplitOn(docCookie, "; ")[k];
      ReadCookie(docCookie, name, decode) == if row == "" then Ok(None) else Decoded(CookieValueText(row), decode)
  {
    var rows := SplitOn(docCookie, "; ");
    FindFirst(rows, name, k);
    var row := rows[k];
    if '=' in row {
      SplitSecond(row, '=');
    } else {
      SplitNoSeparator(row, '=');
    }
  }

  /** A row without `=` reads as the text "undefined". */
  lemma ReadRowWithoutValue(row: string, name: string, decode: string -> Option<string>)
    requires row != "" && StartsWith(row, name) && ';' !in row && '=' !in row
    ensures ReadCookie(row, name, decode) == Decoded("undefined", decode)
  {
    SplitNoLead(row, "; ");
    SplitNoSeparator(row, '=');
  }

  /** The first row that merely starts with `name` wins: a cookie called
      `name + "x"` listed earlier hides the cookie `name`. */
  lemma PrefixMatchWins(other: string, v: string, rest: string, name: string, decode: string -> Option<string>)
    requires StartsWith(other, name) && ';' !in other && '=' !in other && ';' !in v && '=' !in v
    ensures ReadCookie(other + "=" + v + "; " + rest, name, decode) == Decoded(v, decode)
  {
    var row := other + "=" + v;
    SplitLead(row, rest, "; ");
    SplitPair(other, v, '=');
    assert row[..|name|] == other[..|name|];
  }

  /** `document.cookie` splits back into the rows it lists. */
  lemma {:induction false} SplitSerialize(jar: seq<Cookie>)
    requires JarOk(jar) && jar != []
    ensures SplitOn(Serialize(jar), "; ") == Rows(jar)
  {
    assert ';' !in Row(jar[0]);
    if |jar| == 1 {
      SplitNoLead(Row(jar[0]), "; ");
    } else {
      var rest := jar[1..];
      assert Rows(jar)[1..] == Rows(rest);
      SplitSerialize(rest);
      SplitLead(Row(jar[0]), Serialize(rest), "; ");
    }
  }

  lemma {:induction false} FindPut(jar: seq<Cookie>, name: string, value: string)
    requires Unshadowed(jar, name)
    ensures FindRow(Rows(Put(jar, name, value)), name) == Some(name + "=" + value)
  {
    if jar != [] && jar[0].name != name {
      assert jar[0] in jar;
      assert Rows(Put(jar, name, value))[1..] == Rows(Put(jar[1..], name, value));
      FindPut(jar[1..], name, value);
    } else {
      assert StartsWith(name + "=" + value, name);
    }
  }

  lemma RowsMember(jar: seq<Cookie>, row: string)
    requires row in Rows(jar)
    ensures exists c :: c in jar && row == Row(c)
  {
    var k :| 0 <= k < |Rows(jar)| && Rows(jar)[k] == row;
    RowsAt(jar, k);
  }

  lemma {:induction false} RowsAt(jar: seq<Cookie>, k: nat)
    requires k < |jar|
    ensures Rows(jar)[k] == Row(jar[k])
  {
    if k > 0 {
      RowsAt(jar[1..], k - 1);
    }
  }

  /** The cookie a write stored is the one `getCookie` reads back. */
  lemma ReadPut(jar: seq<Cookie>, name: string, value: string, decode: string -> Option<string>)
    requires JarOk(jar) && Unshadowed(jar, name)
    requires ';' !in name && '=' !in name && ';' !in value && '=' !in value
    ensures ReadCookie(Serialize(Put(jar, name, value)), name, decode) == Decoded(value, decode)
  {
    var stored := Put(jar, name, value);
    SplitSerialize(stored);
    FindPut(jar, name, value);
    SplitPair(name, value, '=');
    assert Serialize(stored) != "" by {
      assert SplitOn("", "; ") == [""];
      assert Rows(stored)[0] == Row(stored[0]);
    }
  }

  /** After a removal `getCookie` finds nothing under that name. */
  lemma ReadDelete(jar: seq<Cookie>, name: string, decode: string -> Option<string>)
    requires JarOk(jar) && Unshadowed(jar, name)
    ensures ReadCookie(Serialize(Delete(jar, name)), name, decode) == Ok(None)
  {
    var kept := Delete(jar, name);
    if kept != [] {
      SplitSerialize(kept);
      forall row | row in Rows(kept) ensures !StartsWith(row, name) {
        RowsMember(kept, row);
      }
    }
  }

  // ---------------------------------------------------------------------------
  // The identity cookie

  const IdentityCookie := "__uid_2"
  const ExpiredDate := "Tue, 1 Jan 1980 23:59:59 GMT"

  /** What `setCookie` assigns to `document.cookie`; `expires` is the
      `toUTCString()` of the moment seven days ahead. */
  function CookieLine(name: string, encoded: string, expires: string): string {
    name + "=" + encoded + " ;path=/;expires=" + expires
  }

  /** What `removeCookie` assigns to `document.cookie`. */
  function RemovalLine(name: string): string {
    name + "=;path=/;expires=" + ExpiredDate
  }

  /** The request `connect` sends, given the encoded hash. */
  function GenerateUrl(baseUrl: string, encodedHash: string): string {
    baseUrl + "/token/generate?email_hash=" + encodedHash
  }

  /** The request `refresh` sends, given the encoded refresh token. */
  function RefreshUrl(baseUrl: string, encodedToken: string): string {
    baseUrl + "/token/refresh?refresh_token=" + encodedToken
  }

  /** The text `setIdentity` hands to `setCookie`: objects (and `null`)
      serialised, anything else as it is, `undefined` included. */
  function Payload(value: Option<Json>, stringify: Json -> string): string {
    if value.Some? && IsObject(value.value) then stringify(value.value) else ToText(value)
  }

  /** The cookie value `setIdentity` stores. */
  function Stored(b: Browser, value: Option<Json>): string {
    b.encode(Payload(value, b.stringify))
  }

  /** `getIdentity()`: the cookie parsed as JSON when it is a non-empty
      string, `undefined` (None) otherwise. */
  function IdentityOf(b: Browser, jar: seq<Cookie>): Result<Option<Json>, ClientError> {
    match ReadCookie(Serialize(jar), IdentityCookie, b.decode)
    case Err(e) => Err(e)
    case Ok(payload) =>
      if payload.None? || payload.value == "" then Ok(None)
      else match b.parse(payload.value)
        case None => Err(SyntaxError)
        case Some(j) => Ok(Some(j))
  }

  /** `getAdvertisingToken()`: the `advertising_token` member of a truthy
      identity. */
  function AdvertisingTokenOf(b: Browser, jar: seq<Cookie>): Result<Option<Json>, ClientError> {
    match IdentityOf(b, jar)
    case Err(e) => Err(e)
    case Ok(identity) =>
      if identity.Some? && Truthy(identity.value) then Ok(Property(identity.value, "advertising_token"))
      else Ok(None)
  }

  /** `JSON.parse(resp)["body"]`: what `handleResponse` passes on, or what
      it throws; indexing `null` throws a TypeError. */
  function ResponseBody(b: Browser, resp: string): Result<Option<Json>, ClientError> {
    match b.parse(resp)
    case None => Err(SyntaxError)
    case Some(j) => if j.JNull? then Err(TypeError) else Ok(Property(j, "body"))
  }

  /** Whatever `setIdentity` stores, `getCookie("__uid_2")` reads back the
      payload text. */
  lemma StoredReadsBack(b: Browser, jar: seq<Cookie>, value: Option<Json>)
    requires Sound(b) && JarOk(jar) && Unshadowed(jar, IdentityCookie)
    ensures ReadCookie(Serialize(Put(jar, IdentityCookie, Stored(b, value))), IdentityCookie, b.decode)
      == Ok(Some(Payload(value, b.stringify)))
  {
    var text := Payload(value, b.stringify);
    assert b.decode(b.encode(text)) == Some(text);
    assert ';' !in b.encode(text) && '=' !in b.encode(text);
    ReadPut(jar, IdentityCookie, Stored(b, value), b.decode);
  }

  /** An object identity stored by `setIdentity` is what `getIdentity`
      returns, when `JSON.stringify` writes it out faithfully. */
  lemma IdentityRoundTrip(b: Browser, jar: seq<Cookie>, j: Json)
    requires Sound(b) && JarOk(jar) && Unshadowed(jar, IdentityCookie) && IsObject(j) && Representable(j)
    ensures IdentityOf(b, Put(jar, IdentityCookie, Stored(b, Some(j)))) == Ok(Some(j))
  {
    StoredReadsBack(b, jar, Some(j));
    assert b.parse(b.stringify(j)) == Some(j);
  }

  /** After `disconnect` there is no identity. */
  lemma NoIdentityAfterRemoval(b: Browser, jar: seq<Cookie>)
    requires JarOk(jar) && Unshadowed(jar, IdentityCookie)
    ensures IdentityOf(b, Delete(jar, IdentityCookie)) == Ok(None)
    ensures AdvertisingTokenOf(b, Delete(jar, IdentityCookie)) == Ok(None)
  {
    ReadDelete(jar, IdentityCookie, b.decode);
  }

  /** A response without a `body` member stores the text "undefined", which
      `getIdentity` then fails to parse. */
  lemma MissingBodyBreaksIdentity(b: Browser, jar: seq<Cookie>, resp: string)
    requires Sound(b) && JarOk(jar) && Unshadowed(jar, IdentityCookie)
    requires b.parse(resp).Some? && !b.parse(resp).value.JNull? && Property(b.parse(resp).value, "body").None?
    requires b.parse("undefined") == None
    ensures ResponseBody(b, resp) == Ok(None)
    ensures IdentityOf(b, Put(jar, IdentityCookie, Stored(b, None))) == Err(SyntaxError)
  {
    StoredReadsBack(b, jar, None);
  }

  /** The SDK object: `base_url`, the browser it runs in, and the state it
      touches — the cookies `document.cookie` lists, every string assigned
      to `document.cookie`, and every URL requested. */
  class Uid2 {
    const baseUrl: string
    const browser: Browser
    var jar: seq<Cookie>
    var writes: seq<string>
    var requests: seq<string>

    ghost predicate Valid()
      reads this
    {
      Sound(browser) && JarOk(jar)
    }

    constructor(baseUrl: string, browser: Browser, jar: seq<Cookie>)
      requires Sound(browser) && JarOk(jar)
      ensures Valid()
      ensures this.baseUrl == baseUrl && this.browser == browser && this.jar == jar
      ensures writes == [] && requests == []
    {
      this.baseUrl := baseUrl;
      this.browser := browser;
      this.jar := jar;
      writes := [];
      requests := [];
    }

    function GetCookie(name: string): Result<Option<string>, ClientError>
      reads this
    {
      ReadCookie(Serialize(jar), name, browser.decode)
    }

    function Identity(): Result<Option<Json>, ClientError>
      reads this
    {
      IdentityOf(browser, jar)
    }

    function AdvertisingToken(): Result<Option<Json>, ClientError>
      reads this
    {
      AdvertisingTokenOf(browser, jar)
    }

    /** `setCookie(name, value)`: one write, and the cookie now holds the
        encoded value. */
    method SetCookie(name: string, value: string, expires: string)
      requires Valid() && ';' !in name && '=' !in name
      modifies this
      ensures Valid()
      ensures jar == Put(old(jar), name, browser.encode(value))
      ensures writes == old(writes) + [CookieLine(name, browser.encode(value), expires)]
      ensures requests == old(requests)
      ensures Unshadowed(old(jar), name) ==> GetCookie(name) == Ok(Some(value))
    {
      var encoded := browser.encode(value);
      assert ';' !in encoded && '=' !in encoded && browser.decode(encoded) == Some(value);
      if Unshadowed(jar, name) {
        ReadPut(jar, name, encoded, browser.decode);
      }
      writes := writes + [CookieLine(name, encoded, expires)];
      jar := Put(jar, name, encoded);
    }

    /** `removeCookie(name)`: one write, and no cookie of that name is left. */
    method RemoveCookie(name: string)
      requires Valid()
      modifies this
      ensures Valid()
      ensures jar == Delete(old(jar), name)
      ensures writes == old(writes) + [RemovalLine(name)]
      ensures requests == old(requests)
      ensures Unshadowed(old(jar), name) ==> GetCookie(name) == Ok(None)
    {
      if Unshadowed(jar, name) {
        ReadDelete(jar, name, browser.decode);
      }
      writes := writes + [RemovalLine(name)];
      jar := Delete(jar, name);
    }

    /** `setIdentity(value)`: the payload goes into `__uid_2`; an object
        comes back from `getIdentity` unchanged. */
    method SetIdentity(value: Option<Json>, expires: string)
      requires Valid()
      modifies this
      ensures Valid()
      ensures jar == Put(old(jar), IdentityCookie, Stored(browser, value))
      ensures writes == old(writes) + [CookieLine(IdentityCookie, Stored(browser, value), expires)]
      ensures requests == old(requests)
      ensures Unshadowed(old(jar), IdentityCookie) ==>
        GetCookie(IdentityCookie) == Ok(Some(Payload(value, browser.stringify)))
      ensures Unshadowed(old(jar), IdentityCookie) && value.Some? && IsObject(value.value) && Representable(value.value) ==>
        Identity() == Ok(value)
    {
      if Unshadowed(jar, IdentityCookie) && value.Some? && IsObject(value.value) && Representable(value.value) {
        IdentityRoundTrip(browser, jar, value.value);
      }
      SetCookie(IdentityCookie, Payload(value, browser.stringify), expires);
    }

    /** `disconnect()`: the identity cookie is removed. */
    method Disconnect()
      requires Valid()
      modifies this
      ensures Valid()
      ensures jar == Delete(old(jar), IdentityCookie)
      ensures writes == old(writes) + [RemovalLine(IdentityCookie)]
      ensures requests == old(requests)
      ensures Unshadowed(old(jar), IdentityCookie) ==> Identity() == Ok(None) && AdvertisingToken() == Ok(None)
    {
      if Unshadowed(jar, IdentityCookie) {
        NoIdentityAfterRemoval(browser, jar);
      }
      RemoveCookie(IdentityCookie);
    }

    /** `handleResponse(resp)`: the response's `body` becomes the identity,
        unless parsing or indexing throws. */
    method HandleResponse(resp: string, expires: string) returns (r: Result<(), ClientError>)
      requires Valid()
      modifies this
      ensures Valid()
      ensures requests == old(requests)
      ensures ResponseBody(browser, resp).Err? ==>
        r == Err(ResponseBody(browser, resp).error) && jar == old(jar) && writes == old(writes)
      ensures ResponseBody(browser, resp).Ok? ==>
        r == Ok(())
        && jar == Put(old(jar), IdentityCookie, Stored(browser, ResponseBody(browser, resp).value))
        && writes == old(writes) + [CookieLine(IdentityCookie, Stored(browser, ResponseBody(browser, resp).value), expires)]
    {
      var body := ResponseBody(browser, resp);
      if body.Err? {
        return Err(body.error);
      }
      SetIdentity(body.value, expires);
      r := Ok(());
    }

    /** `connect(email)`: one request carrying the encoded hash of the
        client-normalised address, and its answer handled. It runs in a
        promise callback, so nothing is thrown to the caller: a failed
        request rejects that promise, and an exception in the `onload`
        handler is reported by the browser; either way the cookies stay as
        they were. */
    method Connect(email: string, expires: string)
      requires Valid()
      modifies this
      ensures Valid()
      ensures var url := GenerateUrl(baseUrl, browser.encode(browser.digest(NormalizeEmail(email))));
        requests == old(requests) + [url]
        && (browser.xhr(url).Some? && ResponseBody(browser, browser.xhr(url).value).Ok? ==>
              var body := ResponseBody(browser, browser.xhr(url).value).value;
              jar == Put(old(jar), IdentityCookie, Stored(browser, body))
              && writes == old(writes) + [CookieLine(IdentityCookie, Stored(browser, body), expires)])
        && (browser.xhr(url).None? || ResponseBody(browser, browser.xhr(url).value).Err? ==>
              jar == old(jar) && writes == old(writes))
    {
      var url := GenerateUrl(baseUrl, browser.encode(browser.digest(NormalizeEmail(email))));
      requests := requests + [url];
      var reply := browser.xhr(url);
      if reply.Some? {
        var _ := HandleResponse(reply.value, expires);
      }
    }

    /** `refresh()`: a request only when there is a truthy identity, carrying
        its encoded `refresh_token`. A failed request throws NetworkError out
        of `send`; an exception in the `onload` handler is reported by the
        browser and not thrown, and leaves the cookies as they were. */
    method Refresh(expires: string) returns (r: Result<(), ClientError>)
      requires Valid()
      modifies this
      ensures Valid()
      ensures old(Identity()).Err? ==> r == Err(old(Identity()).error) && unchanged(this)
      ensures old(Identity()).Ok? && (old(Identity()).value.None? || !Truthy(old(Identity()).value.value)) ==>
        r == Ok(()) && unchanged(this)
      ensures old(Identity()).Ok? && old(Identity()).value.Some? && Truthy(old(Identity()).value.value) ==>
        var url := RefreshUrl(baseUrl, browser.encode(ToText(Property(old(Identity()).value.value, "refresh_token"))));
        requests == old(requests) + [url]
        && (browser.xhr(url).None? ==> r == Err(NetworkError) && jar == old(jar) && writes == old(writes))
        && (browser.xhr(url).Some? && ResponseBody(browser, browser.xhr(url).value).Ok? ==>
              var body := ResponseBody(browser, browser.xhr(url).value).value;
              r == Ok(()) && jar == Put(old(jar), IdentityCookie, Stored(browser, body))
              && writes == old(writes) + [CookieLine(IdentityCookie, Stored(browser, body), expires)])
        && (browser.xhr(url).Some? && ResponseBody(browser, browser.xhr(url).value).Err? ==>
              r == Ok(()) && jar == old(jar) && writes == old(writes))
    {
      var identity := Identity();
      if identity.Err? {
        return Err(identity.error);
      }
      if identity.value.None? || !Truthy(identity.value.value) {
        return Ok(());
      }
      var url := RefreshUrl(baseUrl, browser.encode(ToText(Property(identity.value.value, "refresh_token"))));
      requests := requests + [url];
      var reply := browser.xhr(url);
      if reply.None? {
        return Err(NetworkError);
      }
      var _ := HandleResponse(reply.value, expires);
      r := Ok(());
    }
  }
}
