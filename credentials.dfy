/** Extracting the basic-auth credentials embedded in the aggregator's access
    URL, and rebuilding the accounts endpoint without them. */
module Credentials {
  import opened Common

  const AccountsPath: string := "/simplefin/accounts"

  const MissingCredentialsMessage: string := "SIMPLEFIN_ACCESS_URL missing credentials in netloc"

  /** What unpacking a one-element split into two names raises. */
  const UnpackMessage: string := "not enough values to unpack (expected 2, got 1)"

  /** The position of the first `c` in `s`, if any. */
  function IndexOf(s: string, c: char): (r: Option<nat>)
    ensures r.None? <==> c !in s
    ensures r.Some? ==> r.value < |s| && s[r.value] == c && c !in s[..r.value]
  {
    if s == [] then None
    else if s[0] == c then Some(0)
    else
      match IndexOf(s[1..], c)
      case None => None
      case Some(i) =>
        assert s[..i + 1] == [s[0]] + s[1..][..i];
        Some(i + 1)
  }

  /** `s.split(sep, 1)`: the whole string when `sep` does not occur,
      otherwise what precedes and what follows its first occurrence. */
  function SplitOnce(s: string, sep: char): (parts: seq<string>)
    ensures sep !in s ==> parts == [s]
    ensures sep in s ==> |parts| == 2 && s == parts[0] + [sep] + parts[1] && sep !in parts[0]
  {
    match IndexOf(s, sep)
    case None => [s]
    case Some(i) =>
      assert s == s[..i] + [sep] + s[i + 1..];
      [s[..i], s[i + 1..]]
  }

  /** The credentials and the endpoint the sync script derives from the URL. */
  datatype Endpoint = Endpoint(username: string, password: string, host: string, url: string)

  /** The netloc is split at its first `@` into credentials and host, the
      credentials at their first `:` into username and password; the URL is
      rebuilt from the scheme and host alone. */
  function ParseAccessUrl(scheme: string, netloc: string): Result<Endpoint>
  {
    if '@' !in netloc then Err(ValueError(MissingCredentialsMessage))
    else
      var halves := SplitOnce(netloc, '@');
      var auth, host := halves[0], halves[1];
      var credentials := SplitOnce(auth, ':');
      if |credentials| != 2 then Err(ValueError(UnpackMessage))
      else Ok(Endpoint(credentials[0], credentials[1], host, scheme + "://" + host + AccountsPath))
  }

  /** The split fails exactly when the netloc has no `@`, or when the part
      before its first `@` has no `:`. On success the netloc is username,
      `:`, password, `@`, host, the username holds neither `:` nor `@`, the
      password holds no `@` (but may hold `:`), and the URL is built from
      the scheme and host. */
  lemma ParseAccessUrlCases(scheme: string, netloc: string)
    ensures '@' !in netloc ==> ParseAccessUrl(scheme, netloc) == Err(ValueError(MissingCredentialsMessage))
    ensures '@' in netloc && ':' !in SplitOnce(netloc, '@')[0]
            ==> ParseAccessUrl(scheme, netloc) == Err(ValueError(UnpackMessage))
    ensures '@' in netloc && ':' in SplitOnce(netloc, '@')[0] ==> ParseAccessUrl(scheme, netloc).Ok?
    ensures ParseAccessUrl(scheme, netloc).Ok? ==>
              var e := ParseAccessUrl(scheme, netloc).value;
              && netloc == e.username + [':'] + e.password + ['@'] + e.host
              && ':' !in e.username && '@' !in e.username && '@' !in e.password
              && e.url == scheme + "://" + e.host + AccountsPath
  {
  }

  /** The first `c` of `a + [c] + b` is at `|a|` when `a` has no `c`. */
  lemma {:induction false} IndexOfAfter(a: string, c: char, b: string)
    requires c !in a
    ensures IndexOf(a + [c] + b, c) == Some(|a|)
    decreases |a|
  {
    if a != [] {
      assert (a + [c] + b)[1..] == a[1..] + [c] + b;
      IndexOfAfter(a[1..], c, b);
    }
  }

  /** Composing a netloc from a username without `:` or `@`, a password
      without `@` and any host, then splitting it, gives back all three. */
  lemma ParseAccessUrlRoundTrip(scheme: string, username: string, password: string, host: string)
    requires ':' !in username && '@' !in username && '@' !in password
    ensures ParseAccessUrl(scheme, username + [':'] + password + ['@'] + host)
            == Ok(Endpoint(username, password, host, scheme + "://" + host + AccountsPath))
  {
    var auth := username + [':'] + password;
    var netloc := auth + ['@'] + host;
    assert '@' !in auth;
    IndexOfAfter(auth, '@', host);
    assert netloc[..|auth|] == auth && netloc[|auth| + 1..] == host;
    IndexOfAfter(username, ':', password);
    assert auth[..|username|] == username && auth[|username| + 1..] == password;
  }
}
