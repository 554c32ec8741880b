/** `validate` of `api/store.js`: a URL is accepted when its host is one of the
    allow-listed domains or a sub-domain of one. */
module DomainValidator {
  import opened Wrappers
  import opened HttpErrors

  /** What Node's legacy `url.parse` yields for the URL: it either throws, or
      gives a `host` that is `null` when the string has no host part. The host
      includes any `:port`. The parser itself is not part of this model. */
  datatype HostParse = ParseThrew | Parsed(host: Option<string>)

  const InvalidUrlMessage: string := "Not a valid URL"

  /** lodash `_.endsWith(s, suffix)`. */
  predicate EndsWith(s: string, suffix: string) {
    |suffix| <= |s| && s[|s| - |suffix|..] == suffix
  }

  /** The suffix matcher: the host equals the entry or ends with `"." + entry`.
      A `null` host matches nothing. */
  predicate Matches(entry: string, host: Option<string>) {
    host.Some? && (entry == host.value || EndsWith(host.value, "." + entry))
  }

  /** Reference reading of "the host is the entry or one of its sub-domains":
      the entry is the whole host, or what follows some dot in it. */
  predicate CoveredBy(entry: string, host: string) {
    host == entry || exists i :: 0 <= i < |host| && host[i] == '.' && host[i + 1..] == entry
  }

  /** The matcher checks suffixes on a dot boundary, and nothing else. */
  lemma MatchesOnDotBoundary(entry: string, host: string)
    ensures Matches(entry, Some(host)) <==> CoveredBy(entry, host)
  {
    var dotted := "." + entry;
    if EndsWith(host, dotted) {
      var i := |host| - |dotted|;
      assert host[i] == host[i..][0] == '.';
      assert host[i + 1..] == host[i..][1..] == entry;
    }
    if host != entry && CoveredBy(entry, host) {
      var i :| 0 <= i < |host| && host[i] == '.' && host[i + 1..] == entry;
      assert host[i..] == [host[i]] + host[i + 1..];
      assert |host| - |dotted| == i;
    }
  }

  /** lodash `_.find`: the first entry the matcher accepts. */
  function Find(whitelist: seq<string>, host: Option<string>): (r: Option<string>)
    ensures r.Some? ==> r.value in whitelist && Matches(r.value, host)
    ensures r.None? <==> forall e :: e in whitelist ==> !Matches(e, host)
    ensures r.Some? ==> exists i :: 0 <= i < |whitelist| && whitelist[i] == r.value &&
                          forall j :: 0 <= j < i ==> !Matches(whitelist[j], host)
    decreases |whitelist|
  {
    if |whitelist| == 0 then None
    else if Matches(whitelist[0], host) then Some(whitelist[0])
    else
      var r := Find(whitelist[1..], host);
      assert forall e :: e in whitelist[1..] ==> e in whitelist;
      assert forall e :: e in whitelist ==> e == whitelist[0] || e in whitelist[1..];
      if r.Some? then
        var i :| 0 <= i < |whitelist[1..]| && whitelist[1..][i] == r.value &&
                 forall j :: 0 <= j < i ==> !Matches(whitelist[1..][j], host);
        assert whitelist[i + 1] == r.value;
        assert forall j :: 0 <= j < i + 1 ==> !Matches(whitelist[j], host) by {
          forall j | 0 <= j < i + 1
            ensures !Matches(whitelist[j], host)
          {
            if j > 0 {
              assert whitelist[j] == whitelist[1..][j - 1];
            }
          }
        }
        r
      else
        r
  }

  /** How a template literal renders the host: `null` for a missing one. */
  function HostText(host: Option<string>): string {
    match host
    case None => "null"
    case Some(h) => h
  }

  /** How a template literal renders an array of strings: joined by commas. */
  function JoinComma(items: seq<string>): string
    decreases |items|
  {
    if |items| == 0 then ""
    else if |items| == 1 then items[0]
    else items[0] + "," + JoinComma(items[1..])
  }

  function RejectionMessage(host: Option<string>, whitelist: seq<string>): string {
    "Not an allowed domain for shortening: " + HostText(host) + ", whitelist: " + JoinComma(whitelist)
  }

  /** No entry is the empty string, which `_.find` would return as a falsy match. */
  predicate NoEmptyEntry(whitelist: seq<string>) {
    forall i :: 0 <= i < |whitelist| ==> whitelist[i] != ""
  }

  /** `validate(longUrl)`: the URL unchanged when its host is allow-listed, a
      400 error otherwise. */
  function Validate(whitelist: seq<string>, parsed: HostParse, longUrl: string): (r: Result<string, Error>)
    ensures r.Ok? ==> r.value == longUrl
    ensures r.Ok? ==> parsed.Parsed? && exists e :: e in whitelist && Matches(e, parsed.host)
    ensures (parsed.Parsed? && NoEmptyEntry(whitelist) &&
             exists e :: e in whitelist && Matches(e, parsed.host)) ==> r.Ok?
    ensures parsed.ParseThrew? ==> r == Err(HttpError(400, InvalidUrlMessage))
    ensures parsed.Parsed? && r.Err? ==> r.error == HttpError(400, RejectionMessage(parsed.host, whitelist))
  {
    match parsed
    case ParseThrew => Err(HttpError(400, InvalidUrlMessage))
    case Parsed(host) =>
      var found := Find(whitelist, host);
      if found.None? || found.value == "" then
        Err(HttpError(400, RejectionMessage(host, whitelist)))
      else
        Ok(longUrl)
  }

  /** Exactly the allow-listed hosts pass, when no entry is empty. */
  lemma ValidateAcceptsCoveredHosts(whitelist: seq<string>, host: string, longUrl: string)
    requires NoEmptyEntry(whitelist)
    ensures Validate(whitelist, Parsed(Some(host)), longUrl).Ok? <==>
              exists e :: e in whitelist && CoveredBy(e, host)
  {
    forall e | e in whitelist
      ensures Matches(e, Some(host)) <==> CoveredBy(e, host)
    {
      MatchesOnDotBoundary(e, host);
    }
  }

  /** The empty entry is a match `_.find` cannot report: when it is the first
      entry that matches, the host is rejected. */
  lemma EmptyEntryRejects(whitelist: seq<string>, host: string, longUrl: string)
    requires |whitelist| >= 1 && whitelist[0] == "" && Matches("", Some(host))
    ensures Validate(whitelist, Parsed(Some(host)), longUrl).Err?
  {
  }

  /** With `domain1.com` allow-listed, the domain itself and its sub-domains pass. */
  lemma ValidateAcceptsExamples(longUrl: string)
    ensures Validate(["domain1.com"], Parsed(Some("domain1.com")), longUrl) == Ok(longUrl)
    ensures Validate(["domain1.com"], Parsed(Some("sub.domain1.com")), longUrl) == Ok(longUrl)
  {
    assert Matches("domain1.com", Some("sub.domain1.com")) by {
      assert "sub.domain1.com"[3..] == ".domain1.com";
    }
  }

  /** With `domain1.com` allow-listed, a look-alike host, another host and a
      missing host are rejected; an empty allow-list rejects every host. */
  lemma ValidateRejectsExamples(longUrl: string, host: Option<string>)
    ensures Validate(["domain1.com"], Parsed(Some("evildomain1.com")), longUrl).Err?
    ensures Validate(["domain1.com"], Parsed(Some("evil.com")), longUrl).Err?
    ensures Validate(["domain1.com"], Parsed(None), longUrl).Err?
    ensures Validate([], Parsed(host), longUrl).Err?
  {
    assert !Matches("domain1.com", Some("evildomain1.com")) by {
      assert "evildomain1.com"[3..][0] == 'l';
    }
    assert !Matches("domain1.com", Some("evil.com"));
  }
}
