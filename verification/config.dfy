/** Base-URL normalisation (src/config.rs) and the URLs the client builds on it (src/client.rs). */
module ClientConfig {
  import opened Options
  import opened Errors
  import opened Text

  const BASE_URL_ERROR :=
    "base URL must be an absolute http(s) URL, e.g. https://<gateway-host> (Paratro cloud or your private gateway)"

  /** `trim_end_matches('/')`. */
  function TrimSlashes(s: string): string {
    if s != "" && s[|s| - 1] == '/' then TrimSlashes(s[..|s| - 1]) else s
  }

  function HostOf(url: string): Option<string> {
    var rest :=
      if StripPrefix(url, "https://").Some? then StripPrefix(url, "https://") else StripPrefix(url, "http://");
    if rest.None? then None else
      var host := UpTo(rest.value, '/');
      if host != "" && NoWhitespace(host) then Some(host) else None
  }

  function NormalizeBaseUrl(baseUrl: string): Result<string> {
    var url := TrimSlashes(baseUrl);
    if HostOf(url).Some? then Ok(url) else Err(InvalidConfig(BASE_URL_ERROR))
  }

  function Url(base: string, path: string): string {
    base + path
  }

  function Slashes(n: nat): (s: string)
    ensures |s| == n && forall i :: 0 <= i < n ==> s[i] == '/'
  {
    seq(n, _ => '/')
  }

  lemma {:induction false} TrimSlashesSplits(s: string) returns (n: nat)
    ensures s == TrimSlashes(s) + Slashes(n)
    ensures TrimSlashes(s) == "" || TrimSlashes(s)[|TrimSlashes(s)| - 1] != '/'
  {
    if s != "" && s[|s| - 1] == '/' {
      n := TrimSlashesSplits(s[..|s| - 1]);
      n := n + 1;
    } else {
      n := 0;
    }
  }

  lemma TrimOneSlash(s: string)
    ensures TrimSlashes(s + "/") == TrimSlashes(s)
  {
    assert (s + "/")[..|s|] == s;
  }

  lemma {:induction false} TrimSlashesOf(s: string, n: nat)
    ensures TrimSlashes(s + Slashes(n)) == TrimSlashes(s)
  {
    if n == 0 {
      assert s + Slashes(0) == s;
    } else {
      TrimSlashesOf(s, n - 1);
      TrimOneSlash(s + Slashes(n - 1));
      assert s + Slashes(n) == s + Slashes(n - 1) + "/";
    }
  }

  /** The grammar the documentation gives: a scheme, a nonempty host, and nothing or a path. */
  ghost predicate AbsoluteHttpUrl(url: string) {
    exists scheme, host, rest :: IsSplit(url, scheme, host, rest)
  }

  ghost predicate IsSplit(url: string, scheme: string, host: string, rest: string) {
    && url == scheme + host + rest
    && (scheme == "https://" || scheme == "http://")
    && host != "" && '/' !in host && NoWhitespace(host)
    && (rest == "" || rest[0] == '/')
  }

  lemma HostOfSplit(url: string, scheme: string, host: string, rest: string)
    requires IsSplit(url, scheme, host, rest)
    ensures HostOf(url) == Some(host)
  {
    var after := host + rest;
    assert url == scheme + after;
    assert url[..|scheme|] == scheme && url[|scheme|..] == after;
    if scheme == "http://" {
      assert url[4] == scheme[4] == ':';
    }
    UpToOf(host, '/', rest);
  }

  lemma SplitOfHost(url: string, scheme: string, host: string)
    requires scheme <= url && (scheme == "https://" || scheme == "http://")
    requires host == UpTo(url[|scheme|..], '/') && host != "" && NoWhitespace(host)
    ensures AbsoluteHttpUrl(url)
  {
    var after := url[|scheme|..];
    var rest := after[|host|..];
    assert after == host + rest;
    assert url == scheme + after;
    assert IsSplit(url, scheme, host, rest);
  }

  lemma HostMeansSplit(url: string)
    ensures HostOf(url).Some? <==> AbsoluteHttpUrl(url)
  {
    if HostOf(url).Some? {
      SplitOfHost(url, if "https://" <= url then "https://" else "http://", HostOf(url).value);
    }
    if AbsoluteHttpUrl(url) {
      var scheme, host, rest :| IsSplit(url, scheme, host, rest);
      HostOfSplit(url, scheme, host, rest);
    }
  }

  /** Trimming slashes off a split URL stops at the host. */
  lemma TrimmedSplit(url: string, scheme: string, host: string, rest: string)
    requires IsSplit(url, scheme, host, rest)
    ensures IsSplit(TrimSlashes(url), scheme, host, TrimSlashes(rest))
  {
    var m := TrimSlashesSplits(rest);
    var kept := scheme + host + TrimSlashes(rest);
    assert url == kept + Slashes(m);
    TrimSlashesOf(kept, m);
    assert kept[|kept| - 1] != '/' by {
      assert host[|host| - 1] in host;
    }
    assert TrimSlashes(rest) == "" || TrimSlashes(rest)[0] == rest[0];
  }

  /** Accepted exactly when the input itself, slashes and all, is an absolute http(s) URL. */
  lemma AcceptedIff(url: string)
    ensures NormalizeBaseUrl(url).Ok? <==> AbsoluteHttpUrl(url)
  {
    var core := TrimSlashes(url);
    HostMeansSplit(core);
    if AbsoluteHttpUrl(core) {
      var n := TrimSlashesSplits(url);
      var scheme, host, rest :| IsSplit(core, scheme, host, rest);
      assert url == scheme + host + (rest + Slashes(n));
      assert IsSplit(url, scheme, host, rest + Slashes(n));
    }
    if AbsoluteHttpUrl(url) {
      var scheme, host, rest :| IsSplit(url, scheme, host, rest);
      TrimmedSplit(url, scheme, host, rest);
    }
  }

  /** The result is a fixed point, without trailing slashes, and the input is it plus slashes. */
  lemma NormalizeSplits(url: string) returns (n: nat)
    requires NormalizeBaseUrl(url).Ok?
    ensures var base := NormalizeBaseUrl(url).value;
            && url == base + Slashes(n)
            && base != "" && base[|base| - 1] != '/'
            && NormalizeBaseUrl(base) == Ok(base)
  {
    n := TrimSlashesSplits(url);
    TrimSlashesOf(TrimSlashes(url), 0);
    assert TrimSlashes(url) + Slashes(0) == TrimSlashes(url);
  }

  /** Appending slashes changes neither acceptance nor the result. */
  lemma SlashesDoNotMatter(url: string, n: nat)
    ensures NormalizeBaseUrl(url + Slashes(n)) == NormalizeBaseUrl(url)
  {
    TrimSlashesOf(url, n);
  }

  ghost predicate DifferInSlashes(a: string, b: string, core: string, m: nat, n: nat) {
    a == core + Slashes(m) && b == core + Slashes(n)
  }

  /** Canonical: two accepted URLs normalise alike iff they differ only in trailing slashes. */
  lemma Canonical(a: string, b: string)
    requires NormalizeBaseUrl(a).Ok? && NormalizeBaseUrl(b).Ok?
    ensures NormalizeBaseUrl(a) == NormalizeBaseUrl(b) <==> exists core, m, n :: DifferInSlashes(a, b, core, m, n)
  {
    if NormalizeBaseUrl(a) == NormalizeBaseUrl(b) {
      var m := NormalizeSplits(a);
      var n := NormalizeSplits(b);
      assert DifferInSlashes(a, b, NormalizeBaseUrl(a).value, m, n);
    }
    if exists core, m, n :: DifferInSlashes(a, b, core, m, n) {
      var core, m, n :| DifferInSlashes(a, b, core, m, n);
      SlashesDoNotMatter(core, m);
      SlashesDoNotMatter(core, n);
    }
  }

  /** An `/api/` path meets the base with exactly one slash. */
  lemma OneSlashAtTheJoint(url: string, path: string)
    requires NormalizeBaseUrl(url).Ok? && "/api/" <= path
    ensures var base := NormalizeBaseUrl(url).value;
            && |base| > 0 && Url(base, path)[|base|] == '/'
            && Url(base, path)[|base| - 1] != '/' && Url(base, path)[|base| + 1] != '/'
            && Url(base, path)[..|base|] == base && Url(base, path)[|base|..] == path
  {
    var n := NormalizeSplits(url);
  }
}
