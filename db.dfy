/** The rewriting of the database connection string to name the psycopg2 driver. */
module Db {

  const PostgresScheme: string := "postgres://"
  const PostgresqlScheme: string := "postgresql://"
  const Psycopg2Scheme: string := "postgresql+psycopg2://"
  const Psycopg2Driver: string := "+psycopg2"
  const DefaultUrl: string := "sqlite:///./pos.db"

  /** `s.startswith(prefix)` */
  predicate StartsWith(s: string, prefix: string) {
    |prefix| <= |s| && s[..|prefix|] == prefix
  }

  /** `sub in s` */
  predicate Contains(s: string, sub: string)
    decreases |s|
  {
    StartsWith(s, sub) || (|s| > 0 && Contains(s[1..], sub))
  }

  /** `s.replace(pat, rep, 1)`: the leftmost occurrence of `pat`, if any, becomes `rep`. */
  function ReplaceFirst(s: string, pat: string, rep: string): (r: string)
    ensures StartsWith(s, pat) ==> r == rep + s[|pat|..]
    ensures !Contains(s, pat) ==> r == s
    decreases |s|
  {
    if StartsWith(s, pat) then rep + s[|pat|..]
    else if |s| == 0 then s
    else [s[0]] + ReplaceFirst(s[1..], pat, rep)
  }

  /** `_normalize_db_url` */
  function NormalizeDbUrl(url: string): (r: string)
    ensures StartsWith(url, "postgres://") ==> r == "postgresql+psycopg2://" + url[11..]
    ensures StartsWith(url, "postgresql://") && !Contains(url, "+psycopg2") ==> r == "postgresql+psycopg2://" + url[13..]
    ensures !StartsWith(url, "postgres://") && !(StartsWith(url, "postgresql://") && !Contains(url, "+psycopg2")) ==> r == url
  {
    if StartsWith(url, PostgresScheme) then
      assert !StartsWith(url, PostgresqlScheme) by { assert url[8] == PostgresScheme[8] != PostgresqlScheme[8]; }
      ReplaceFirst(url, PostgresScheme, Psycopg2Scheme)
    else if StartsWith(url, PostgresqlScheme) && !Contains(url, Psycopg2Driver) then ReplaceFirst(url, PostgresqlScheme, Psycopg2Scheme)
    else url
  }

  /** A url already naming the psycopg2 driver is left alone. */
  lemma Psycopg2UrlIsFixed(rest: string)
    ensures NormalizeDbUrl(Psycopg2Scheme + rest) == Psycopg2Scheme + rest
  {
    var u := Psycopg2Scheme + rest;
    assert u[8] == 'q';
    assert !StartsWith(u, PostgresScheme) by { assert PostgresScheme[8] == ':'; }
    assert u[10] == '+';
    assert !StartsWith(u, PostgresqlScheme) by { assert PostgresqlScheme[10] == ':'; }
  }

  /** Normalising twice is normalising once. */
  lemma NormalizeIdempotent(url: string)
    ensures NormalizeDbUrl(NormalizeDbUrl(url)) == NormalizeDbUrl(url)
  {
    var r := NormalizeDbUrl(url);
    if r != url {
      if StartsWith(url, PostgresScheme) {
        Psycopg2UrlIsFixed(url[11..]);
      } else {
        Psycopg2UrlIsFixed(url[13..]);
      }
    }
  }

  /** The default sqlite url is returned unchanged. */
  lemma DefaultUrlIsFixed()
    ensures NormalizeDbUrl(DefaultUrl) == DefaultUrl
  {
    assert DefaultUrl[0] == 's';
    assert !StartsWith(DefaultUrl, PostgresScheme) && !StartsWith(DefaultUrl, PostgresqlScheme);
  }
}
