/** The gateway's email canonicalisation, `normalize_email` in handler.py:
    strip, lower-case, split on the one `@`, and for `gmail.com` drop every
    `.` of the user part and cut it at the first `+`. */
module EmailNormalizer {
  import opened Wrappers
  import opened Text

  /** The `ValueError` raised when `email.split("@")` does not give exactly
      two pieces to unpack. */
  datatype EmailError = MalformedEmail

  /** `email.strip().lower()` */
  function Folded(email: string): string {
    Lower(PythonStrip(email))
  }

  function NormalizeEmail(email: string): Result<string, EmailError> {
    Rewrite(Folded(email))
  }

  /** The rest of `normalize_email`, on the stripped, lower-cased text:
      unpack the split on `@`, and rewrite a Gmail user part. */
  function Rewrite(folded: string): Result<string, EmailError> {
    var parts := SplitOn(folded, "@");
    if |parts| != 2 then Err(MalformedEmail)
    else
      var user, domain := parts[0], parts[1];
      if domain == "gmail.com" then
        Ok(Join([SplitOn(Erase(user, '.'), "+")[0], domain], "@"))
      else
        Ok(folded)
  }

  /** The Gmail user part: every `.` removed, then cut before the first `+`. */
  function GmailUser(user: string): (r: string)
    ensures '.' !in r && '+' !in r
    ensures forall x :: x in r ==> x in user
  {
    TakeUntil(Erase(user, '.'), '+')
  }

  /** The call fails exactly when the stripped, lower-cased input does not
      hold exactly one `@`; an empty user part or domain is accepted. */
  lemma MalformedIff(email: string)
    ensures NormalizeEmail(email).Err? <==> multiset(Folded(email))['@'] != 1
  {
    SplitCount(Folded(email), '@');
  }

  /** For `gmail.com` the user part loses all dots and its `+` suffix; the
      text from the `@` on is kept. */
  lemma GmailRule(email: string)
    requires multiset(Folded(email))['@'] == 1
    requires var e := Folded(email); e[IndexOf(e, '@') + 1..] == "gmail.com"
    ensures var e := Folded(email); var i := IndexOf(e, '@');
      NormalizeEmail(email) == Ok(GmailUser(e[..i]) + e[i..])
  {
    GmailBranch(Folded(email));
  }

  /** The Gmail branch of `NormalizeEmail`, on the stripped, lower-cased text. */
  lemma GmailBranch(e: string)
    requires multiset(e)['@'] == 1
    ensures var parts := SplitOn(e, "@"); var i := IndexOf(e, '@');
      |parts| == 2 && parts[1] == e[i + 1..] &&
      Join([SplitOn(Erase(parts[0], '.'), "+")[0], parts[1]], "@") == GmailUser(e[..i]) + e[i..]
  {
    var i := IndexOf(e, '@');
    SplitAtOnly(e, '@');
    GmailJoin(e[..i], e[i + 1..]);
    assert e[i..] == "@" + e[i + 1..];
  }

  lemma GmailJoin(user: string, domain: string)
    ensures Join([SplitOn(Erase(user, '.'), "+")[0], domain], "@") == GmailUser(user) + ("@" + domain)
  {
    SplitHead(Erase(user, '.'), '+');
    JoinTwo(GmailUser(user), domain, "@");
    AppendAssoc(GmailUser(user), "@", domain);
  }

  /** Any other domain: the result is the stripped, lower-cased input, dots
      and plus signs kept. */
  lemma OtherDomainRule(email: string)
    requires multiset(Folded(email))['@'] == 1
    requires var e := Folded(email); e[IndexOf(e, '@') + 1..] != "gmail.com"
    ensures NormalizeEmail(email) == Ok(Folded(email))
  {
    SplitAtOnly(Folded(email), '@');
  }

  /** A normalised address is never longer than the stripped input. */
  lemma NormalizeShortens(email: string)
    requires NormalizeEmail(email).Ok?
    ensures |NormalizeEmail(email).value| <= |PythonStrip(email)|
  {
    var e := Folded(email);
    assert |e| == |PythonStrip(email)|;
    MalformedIff(email);
    var i := IndexOf(e, '@');
    if e[i + 1..] == "gmail.com" {
      GmailRule(email);
      assert |GmailUser(e[..i])| <= i;
    } else {
      OtherDomainRule(email);
    }
  }

  /** The stripped, lower-cased text never starts or ends with white space. */
  lemma FoldedEnds(email: string)
    ensures var e := Folded(email); e == [] || (!IsPythonSpace(e[0]) && !IsPythonSpace(e[|e| - 1]))
  {
  }

  /** A Gmail address whose user part is already lower-case, free of `.`,
      `+` and `@`, and does not start with white space, is a fixed point. */
  lemma GmailFixpoint(user: string)
    requires '@' !in user && '.' !in user && '+' !in user && IsLower(user)
    requires user == [] || !IsPythonSpace(user[0])
    ensures NormalizeEmail(user + "@gmail.com") == Ok(user + "@gmail.com")
  {
    var r := user + "@gmail.com";
    GmailAddressFolded(user);
    GmailParts(r, user);
    assert GmailUser(user) == user;
  }

  /** Such an address is already stripped and lower-case. */
  lemma GmailAddressFolded(user: string)
    requires IsLower(user) && (user == [] || !IsPythonSpace(user[0]))
    ensures Folded(user + "@gmail.com") == user + "@gmail.com"
  {
    GmailAddressStripped(user);
    GmailDomainLower();
    LowerAppend(user, "@gmail.com");
    LowerFixed(user + "@gmail.com");
  }

  lemma GmailDomainLower()
    ensures IsLower("@gmail.com")
  {
  }

  lemma GmailAddressStripped(user: string)
    requires user == [] || !IsPythonSpace(user[0])
    ensures PythonStrip(user + "@gmail.com") == user + "@gmail.com"
  {
    var r := user + "@gmail.com";
    assert r[|r| - 1] == 'm';
    assert r[0] == if user == [] then '@' else user[0];
    TrimFixed(r, IsPythonSpace);
  }

  /** Stripping and lower-casing a second time changes nothing. */
  lemma FoldedTwice(email: string)
    ensures Folded(Folded(email)) == Folded(email)
  {
    var e := Folded(email);
    LowerIsLower(PythonStrip(email));
    FoldedEnds(email);
    TrimFixed(e, IsPythonSpace);
    LowerFixed(e);
  }

  /** Normalising twice gives the same address exactly when the first result
      does not start with white space. That fails only for a Gmail user part
      that begins with dots followed by white space: removing the dots exposes
      the white space, which the second call strips. */
  lemma IdempotentIff(email: string)
    requires NormalizeEmail(email).Ok?
    ensures var r := NormalizeEmail(email).value;
      |r| > 0 && (NormalizeEmail(r) == Ok(r) <==> !IsPythonSpace(r[0]))
  {
    var e := Folded(email);
    MalformedIff(email);
    var i := IndexOf(e, '@');
    if e[i + 1..] != "gmail.com" {
      OtherDomainRule(email);
      OtherIdempotent(email);
    } else {
      GmailRule(email);
      LowerIsLower(PythonStrip(email));
      GmailIdempotentIff(e, i);
    }
  }

  /** Outside Gmail the result is a fixed point that starts with no white
      space. */
  lemma OtherIdempotent(email: string)
    requires multiset(Folded(email))['@'] == 1
    requires var e := Folded(email); e[IndexOf(e, '@') + 1..] != "gmail.com"
    ensures var e := Folded(email); |e| > 0 && !IsPythonSpace(e[0]) && NormalizeEmail(e) == Ok(e)
  {
    OtherDomainRule(email);
    FoldedTwice(email);
    FoldedEnds(email);
  }

  /** The Gmail case of `IdempotentIff`, on the folded text `e` with its `@`
      at `i`. */
  lemma GmailIdempotentIff(e: string, i: nat)
    requires i < |e| && e[i] == '@' && '@' !in e[..i] && IsLower(e)
    ensures var r := GmailUser(e[..i]) + e[i..];
      |r| > 0 && (e[i + 1..] == "gmail.com" ==> (NormalizeEmail(r) == Ok(r) <==> !IsPythonSpace(r[0])))
  {
    var user := GmailUser(e[..i]);
    var r := user + e[i..];
    assert r[|user|] == '@';
    if e[i + 1..] == "gmail.com" {
      assert e[i..] == "@gmail.com";
      if user != [] && IsPythonSpace(user[0]) {
        TrimShortens(r, IsPythonSpace);
        if NormalizeEmail(r).Ok? {
          NormalizeShortens(r);
        }
      } else {
        assert forall x :: x in user ==> x in e[..i];
        GmailFixpoint(user);
      }
    }
  }

  /** `GmailRule` for a folded text given as user part and domain. */
  lemma GmailParts(email: string, user: string)
    requires Folded(email) == user + "@gmail.com" && '@' !in user
    ensures NormalizeEmail(email) == Ok(GmailUser(user) + "@gmail.com")
  {
    assert "@gmail.com" == ['@'] + "gmail.com";
    AppendAssoc(user, ['@'], "gmail.com");
    SplitPair(user, "gmail.com", '@');
    GmailJoin(user, "gmail.com");
  }

  /** The input that shows normalisation is not idempotent. */
  lemma NotIdempotentExample()
    ensures NormalizeEmail(". b@gmail.com") == Ok(" b@gmail.com")
    ensures NormalizeEmail(" b@gmail.com") == Ok("b@gmail.com")
  {
    DotSpaceInstance(". b@gmail.com", " b@gmail.com", "b@gmail.com", "b");
  }

  lemma DotSpaceInstance(once: string, twice: string, thrice: string, t: string)
    requires t == "b" && thrice == t + "@gmail.com"
    requires once == ". " + t + "@gmail.com" && twice == " " + t + "@gmail.com"
    ensures NormalizeEmail(once) == Ok(twice) && NormalizeEmail(twice) == Ok(thrice)
  {
    assert IsLower(t);
    DotSpaceFamily(t);
  }

  /** Every Gmail address whose user part is a dot, a space and a clean
      tail `t` changes on each of two successive calls: the first removes
      the dot, the second strips the exposed space. */
  lemma DotSpaceFamily(t: string)
    requires '@' !in t && '.' !in t && '+' !in t && IsLower(t)
    requires t == [] || !IsPythonSpace(t[0])
    ensures NormalizeEmail(". " + t + "@gmail.com") == Ok(" " + t + "@gmail.com")
    ensures NormalizeEmail(" " + t + "@gmail.com") == Ok(t + "@gmail.com")
  {
    DotSpaceFirst(t);
    DotSpaceSecond(t);
  }

  lemma DotSpaceFirst(t: string)
    requires '@' !in t && '.' !in t && '+' !in t && IsLower(t)
    ensures NormalizeEmail(". " + t + "@gmail.com") == Ok(" " + t + "@gmail.com")
  {
    var user := ". " + t;
    assert IsLower(". ");
    LowerAppend(". ", t);
    assert user[0] == '.';
    GmailAddressFolded(user);
    assert forall x :: x in user ==> x == '.' || x == ' ' || x in t;
    GmailParts(user + "@gmail.com", user);
    DotSpaceUser(t);
  }

  lemma DotSpaceUser(t: string)
    requires '.' !in t && '+' !in t
    ensures GmailUser(". " + t) == " " + t
  {
    var user := ". " + t;
    var spaced := " " + t;
    assert user[1..] == spaced && spaced[1..] == t;
    assert Erase(spaced, '.') == [' '] + Erase(t, '.');
    assert [' '] + t == spaced;
    assert forall x :: x in spaced ==> x == ' ' || x in t;
  }

  lemma DotSpaceSecond(t: string)
    requires '@' !in t && '.' !in t && '+' !in t && IsLower(t)
    requires t == [] || !IsPythonSpace(t[0])
    ensures NormalizeEmail(" " + t + "@gmail.com") == Ok(t + "@gmail.com")
  {
    var twice := " " + t + "@gmail.com";
    FoldedDropsSpace(twice);
    DropLeadingSpace(t, "@gmail.com");
    GmailAddressFolded(t);
    GmailParts(twice, t);
    GmailUserFixed(t);
  }

  lemma FoldedDropsSpace(s: string)
    requires |s| > 0 && IsPythonSpace(s[0])
    ensures Folded(s) == Folded(s[1..])
  {
    TrimDropsFirst(s, IsPythonSpace);
  }

  lemma DropLeadingSpace(t: string, d: string)
    ensures (" " + t + d)[1..] == t + d
  {
    AppendAssoc(" ", t, d);
  }

  lemma GmailUserFixed(user: string)
    requires '.' !in user && '+' !in user
    ensures GmailUser(user) == user
  {
  }
}
