/** Opaque tokens that carry their tenant and user in front (`_build_scoped_token` and the
    parsing part of `_apply_scope_from_token`). */
module ScopedTokens {
  import opened Options

  /** A UUID as its 32 hexadecimal digits. */
  type Uuid = u: seq<nat> | |u| == 32 && forall i | 0 <= i < 32 :: u[i] < 16 witness seq(32, _ => 0)

  datatype Scope = Scope(tenant: Option<Uuid>, user: Option<Uuid>)

  const PLATFORM: string := "platform"
  const PUBLIC: string := "public"

  function HexDigit(d: nat): char
    requires d < 16
  {
    "0123456789abcdef"[d]
  }

  function HexValue(c: char): Option<nat> {
    if '0' <= c <= '9' then Some(c as nat - '0' as nat)
    else if 'a' <= c <= 'f' then Some(c as nat - 'a' as nat + 10)
    else if 'A' <= c <= 'F' then Some(c as nat - 'A' as nat + 10)
    else None
  }

  function HexText(digits: seq<nat>): (t: string)
    requires forall i | 0 <= i < |digits| :: digits[i] < 16
    ensures |t| == |digits| && forall i | 0 <= i < |t| :: t[i] == HexDigit(digits[i])
  {
    seq(|digits|, i requires 0 <= i < |digits| => HexDigit(digits[i]))
  }

  /** The text form of section 4 of RFC 9562: 8-4-4-4-12 lower-case digits. */
  function UuidText(u: Uuid): string {
    Hyphenated(Hyphenated(Hyphenated(Hyphenated(HexText(u[..8]), HexText(u[8..12])), HexText(u[12..16])),
        HexText(u[16..20])), HexText(u[20..]))
  }

  function Hyphenated(s: string, t: string): string {
    s + "-" + t
  }

  function WithoutHyphens(t: string): string {
    if t == "" then ""
    else (if t[0] == '-' then "" else [t[0]]) + WithoutHyphens(t[1..])
  }

  function HexValues(t: string): (r: Option<seq<nat>>)
    ensures r.Some? ==> |r.value| == |t| && forall i | 0 <= i < |t| :: r.value[i] < 16
  {
    if t == "" then Some([])
    else
      match (HexValue(t[0]), HexValues(t[1..]))
      case (Some(d), Some(rest)) => Some([d] + rest)
      case _ => None
  }

  /** `uuid.UUID(text)`: hyphens do not matter, 32 hexadecimal digits must remain. */
  function ParseUuid(t: string): Option<Uuid> {
    var digits := WithoutHyphens(t);
    if |digits| != 32 then None
    else
      match HexValues(digits)
      case None => None
      case Some(u) => Some(u)
  }

  function Part(id: Option<Uuid>, missing: string): string {
    if id.Some? then UuidText(id.value) else missing
  }

  function Build(tenant: Option<Uuid>, user: Option<Uuid>, secret: string): string {
    Part(tenant, PLATFORM) + "." + Part(user, PUBLIC) + "." + secret
  }

  /** What stands before and after the first dot. */
  function SplitAtDot(t: string): Option<(string, string)> {
    if t == "" then None
    else if t[0] == '.' then Some(("", t[1..]))
    else
      match SplitAtDot(t[1..])
      case None => None
      case Some((before, after)) => Some(([t[0]] + before, after))
  }

  /** `None` when the part is the placeholder, otherwise a UUID or an error. */
  function ParsePart(part: string, missing: string): Option<Option<Uuid>> {
    if part == missing then Some(None)
    else
      match ParseUuid(part)
      case None => None
      case Some(u) => Some(Some(u))
  }

  /** The scope a token claims; none when the token is malformed. */
  function Parse(token: string): Option<Scope> {
    match SplitAtDot(token)
    case None => None
    case Some((tenantPart, rest)) =>
      match SplitAtDot(rest)
      case None => None
      case Some((userPart, _)) =>
        match (ParsePart(tenantPart, PLATFORM), ParsePart(userPart, PUBLIC))
        case (Some(tenant), Some(user)) => Some(Scope(tenant, user))
        case _ => None
  }

  // Parsing back

  lemma {:induction false} SplitOfConcat(before: string, after: string)
    requires '.' !in before
    ensures SplitAtDot(before + "." + after) == Some((before, after))
  {
    var t := before + "." + after;
    if before != "" {
      SplitOfConcat(before[1..], after);
      assert t[1..] == before[1..] + "." + after;
      assert t[0] == before[0] != '.';
      assert [before[0]] + before[1..] == before;
    } else {
      assert t[1..] == after;
    }
  }

  lemma HexDigitValue(d: nat)
    requires d < 16
    ensures HexValue(HexDigit(d)) == Some(d) && HexDigit(d) != '-' && HexDigit(d) != '.'
  {
  }

  lemma HexTextCons(digits: seq<nat>)
    requires digits != [] && forall i | 0 <= i < |digits| :: digits[i] < 16
    ensures HexText(digits)[0] == HexDigit(digits[0]) && HexText(digits)[1..] == HexText(digits[1..])
  {
  }

  lemma {:induction false} HexRoundTrip(digits: seq<nat>)
    requires forall i | 0 <= i < |digits| :: digits[i] < 16
    ensures HexValues(HexText(digits)) == Some(digits)
    ensures '.' !in HexText(digits)
  {
    if digits == [] {
    } else {
      HexTextCons(digits);
      HexDigitValue(digits[0]);
      HexRoundTrip(digits[1..]);
      assert digits == [digits[0]] + digits[1..];
    }
  }

  lemma {:induction false} HexTextHasNoHyphens(digits: seq<nat>)
    requires forall i | 0 <= i < |digits| :: digits[i] < 16
    ensures WithoutHyphens(HexText(digits)) == HexText(digits)
  {
    if digits == [] {
    } else {
      HexTextCons(digits);
      HexDigitValue(digits[0]);
      HexTextHasNoHyphens(digits[1..]);
    }
  }

  lemma {:induction false} WithoutHyphensOfConcat(s: string, t: string)
    ensures WithoutHyphens(s + t) == WithoutHyphens(s) + WithoutHyphens(t)
  {
    if s == "" {
      assert s + t == t;
    } else {
      WithoutHyphensOfConcat(s[1..], t);
      assert (s + t)[1..] == s[1..] + t && (s + t)[0] == s[0];
      Associative(if s[0] == '-' then "" else [s[0]], WithoutHyphens(s[1..]), WithoutHyphens(t));
    }
  }

  lemma Associative(a: string, b: string, c: string)
    ensures a + (b + c) == (a + b) + c
  {
  }

  lemma HyphenatedDigits(s: string, t: string)
    ensures WithoutHyphens(Hyphenated(s, t)) == WithoutHyphens(s) + WithoutHyphens(t)
    ensures '.' !in s && '.' !in t ==> '.' !in Hyphenated(s, t)
    ensures |Hyphenated(s, t)| == |s| + 1 + |t|
  {
    WithoutHyphensOfConcat(s + "-", t);
    WithoutHyphensOfConcat(s, "-");
    assert "-"[1..] == "";
    assert WithoutHyphens("-") == "";
    assert WithoutHyphens(s) + "" == WithoutHyphens(s);
  }

  lemma HexTextOfConcat(a: seq<nat>, b: seq<nat>)
    requires forall i | 0 <= i < |a| :: a[i] < 16
    requires forall i | 0 <= i < |b| :: b[i] < 16
    ensures HexText(a) + HexText(b) == HexText(a + b)
  {
  }

  /** One more group of digits after the first `m`. */
  lemma NextGroup(u: Uuid, t: string, m: nat, n: nat)
    requires m <= n <= 32 && WithoutHyphens(t) == HexText(u[..m]) && '.' !in t
    ensures WithoutHyphens(Hyphenated(t, HexText(u[m..n]))) == HexText(u[..n])
    ensures '.' !in Hyphenated(t, HexText(u[m..n])) && |Hyphenated(t, HexText(u[m..n]))| == |t| + 1 + n - m
  {
    HexRoundTrip(u[m..n]);
    HexTextHasNoHyphens(u[m..n]);
    HyphenatedDigits(t, HexText(u[m..n]));
    HexTextOfConcat(u[..m], u[m..n]);
    assert u[..m] + u[m..n] == u[..n];
  }

  lemma UuidRoundTrip(u: Uuid)
    ensures ParseUuid(UuidText(u)) == Some(u)
    ensures '.' !in UuidText(u) && |UuidText(u)| == 36
  {
    var a := HexText(u[..8]);
    HexRoundTrip(u[..8]);
    HexTextHasNoHyphens(u[..8]);
    NextGroup(u, a, 8, 12);
    var b := Hyphenated(a, HexText(u[8..12]));
    NextGroup(u, b, 12, 16);
    var c := Hyphenated(b, HexText(u[12..16]));
    NextGroup(u, c, 16, 20);
    var d := Hyphenated(c, HexText(u[16..20]));
    NextGroup(u, d, 20, 32);
    assert u[20..32] == u[20..] && u[..32] == u;
    HexRoundTrip(u);
  }

  lemma PartRoundTrip(id: Option<Uuid>, missing: string)
    requires '.' !in missing && |missing| != 36
    ensures ParsePart(Part(id, missing), missing) == Some(id) && '.' !in Part(id, missing)
  {
    if id.Some? { UuidRoundTrip(id.value); }
  }

  /** Every token the service builds parses back to its tenant and user, whatever its secret,
      dots included. */
  lemma ScopeRoundTrip(tenant: Option<Uuid>, user: Option<Uuid>, secret: string)
    ensures Parse(Build(tenant, user, secret)) == Some(Scope(tenant, user))
  {
    var t, u := Part(tenant, PLATFORM), Part(user, PUBLIC);
    PartRoundTrip(tenant, PLATFORM);
    PartRoundTrip(user, PUBLIC);
    assert Build(tenant, user, secret) == t + "." + (u + "." + secret);
    SplitOfConcat(t, u + "." + secret);
    SplitOfConcat(u, secret);
  }

  /** Tokens of different scopes or secrets differ. */
  lemma BuildIsInjective(tenant: Option<Uuid>, user: Option<Uuid>, secret: string,
                         tenant': Option<Uuid>, user': Option<Uuid>, secret': string)
    requires Build(tenant, user, secret) == Build(tenant', user', secret')
    ensures tenant == tenant' && user == user' && secret == secret'
  {
    ScopeRoundTrip(tenant, user, secret);
    ScopeRoundTrip(tenant', user', secret');
    var front := Part(tenant, PLATFORM) + "." + Part(user, PUBLIC) + ".";
    assert Build(tenant, user, secret)[|front|..] == secret && Build(tenant', user', secret')[|front|..] == secret';
  }

  // What the texts look like

  /** A UUID is written in five groups of 8, 4, 4, 4 and 12 digits, hyphens between. */
  lemma UuidGroups(u: Uuid)
    ensures var t := UuidText(u);
      && |t| == 36 && t[8] == t[13] == t[18] == t[23] == '-'
      && t == HexText(u[..8]) + "-" + HexText(u[8..12]) + "-" + HexText(u[12..16]) + "-" + HexText(u[16..20]) + "-"
          + HexText(u[20..])
  {
  }

  /** The digits are 0 to 9 and lower-case a to f, and read back in either case. */
  lemma HexDigitsAre(d: nat)
    requires d < 16
    ensures HexDigit(d) == if d < 10 then '0' + d as char else 'a' + (d - 10) as char
    ensures d >= 10 ==> HexValue('A' + (d - 10) as char) == Some(d)
    ensures HexValue(HexDigit(d)) == Some(d)
  {
    HexDigitValue(d);
  }

  /** A token is tenant, user and secret with dots between, in that order. */
  lemma TokenText(tenant: Option<Uuid>, user: Option<Uuid>, secret: string)
    ensures Build(tenant, user, secret) ==
            (if tenant.Some? then UuidText(tenant.value) else "platform") + "."
            + (if user.Some? then UuidText(user.value) else "public") + "." + secret
  {
  }

  /** A token that parses has two dots, and ids or placeholders before them. */
  lemma ParsedTokens(token: string, scope: Scope)
    requires Parse(token) == Some(scope)
    ensures exists tenant: string, user: string, secret: string ::
              && token == tenant + "." + user + "." + secret && '.' !in tenant && '.' !in user
              && ParsePart(tenant, PLATFORM) == Some(scope.tenant) && ParsePart(user, PUBLIC) == Some(scope.user)
  {
    var first := SplitAtDot(token).value;
    var second := SplitAtDot(first.1).value;
    SplitGives(token);
    SplitGives(first.1);
    assert token == first.0 + "." + second.0 + "." + second.1;
  }

  lemma {:induction false} SplitGives(t: string)
    ensures SplitAtDot(t).None? <==> '.' !in t
    ensures SplitAtDot(t).Some? ==>
              t == SplitAtDot(t).value.0 + "." + SplitAtDot(t).value.1 && '.' !in SplitAtDot(t).value.0
  {
    if t == "" {
    } else if t[0] == '.' {
      assert t == "" + "." + t[1..];
    } else {
      SplitGives(t[1..]);
      assert t == [t[0]] + t[1..];
    }
  }
}
