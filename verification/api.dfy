/**
 * The deterministic parts of the client (`Api` in py_nightscout/api.py):
 * normalising the server URL, choosing the authentication header, and
 * picking the most recent status of every device. Fetching over HTTP is
 * not modelled; the statuses arrive as a parameter.
 */
module NightscoutApi {
  import opened Wrappers
  import opened FixedZones
  import Sorting

  // ---------------------------------------------------------------- server URL

  /** Every character of `s` is `c`. */
  predicate AllChar(s: string, c: char) {
    forall i :: 0 <= i < |s| ==> s[i] == c
  }

  /** `s.lstrip(c)`. */
  function StripLeading(s: string, c: char): (r: string)
    ensures r == [] || r[0] != c
  {
    if s != [] && s[0] == c then StripLeading(s[1..], c) else s
  }

  /** `s.rstrip(c)`. */
  function StripTrailing(s: string, c: char): (r: string)
    ensures |r| <= |s| && r == s[..|r|]
    ensures r == [] || r[|r| - 1] != c
  {
    if s != [] && s[|s| - 1] == c then StripTrailing(s[..|s| - 1], c) else s
  }

  /** `s.strip(c)`: every leading and every trailing `c` removed. */
  function Strip(s: string, c: char): (r: string)
    ensures Trimmed(r, c)
  {
    StripTrailing(StripLeading(s, c), c)
  }

  /** Neither end of `m` is `c`. */
  predicate Trimmed(m: string, c: char) {
    m == [] || (m[0] != c && m[|m| - 1] != c)
  }

  lemma {:induction false} StripLeadingSpec(s: string, c: char) returns (p: string)
    ensures AllChar(p, c) && s == p + StripLeading(s, c)
    ensures StripLeading(s, c) == [] || StripLeading(s, c)[0] != c
  {
    if s != [] && s[0] == c {
      var p' := StripLeadingSpec(s[1..], c);
      p := [c] + p';
      assert s == [s[0]] + s[1..];
    } else {
      p := [];
    }
  }

  lemma {:induction false} StripTrailingSpec(s: string, c: char) returns (q: string)
    ensures AllChar(q, c) && s == StripTrailing(s, c) + q
    ensures StripTrailing(s, c) == [] || StripTrailing(s, c)[|StripTrailing(s, c)| - 1] != c
    ensures StripTrailing(s, c) == s[..|StripTrailing(s, c)|]
  {
    if s != [] && s[|s| - 1] == c {
      var q' := StripTrailingSpec(s[..|s| - 1], c);
      q := q' + [c];
      assert s == s[..|s| - 1] + [s[|s| - 1]];
    } else {
      q := [];
    }
  }

  /**
   * `strip` splits its input into a run of `c`, the result and another run
   * of `c`, and the result neither starts nor ends with `c`.
   */
  lemma StripSpec(s: string, c: char) returns (p: string, q: string)
    ensures AllChar(p, c) && AllChar(q, c)
    ensures s == p + Strip(s, c) + q
    ensures Trimmed(Strip(s, c), c)
  {
    var l := StripLeading(s, c);
    p := StripLeadingSpec(s, c);
    q := StripTrailingSpec(l, c);
    var m := Strip(s, c);
    if m != [] {
      assert m[0] == l[0];
    }
  }

  lemma {:induction false} StripLeadingRun(p: string, m: string, c: char)
    requires AllChar(p, c) && (m == [] || m[0] != c)
    ensures StripLeading(p + m, c) == m
    decreases |p|
  {
    if p != [] {
      assert (p + m)[1..] == p[1..] + m;
      StripLeadingRun(p[1..], m, c);
    }
  }

  lemma {:induction false} StripTrailingRun(m: string, q: string, c: char)
    requires AllChar(q, c) && (m == [] || m[|m| - 1] != c)
    ensures StripTrailing(m + q, c) == m
    decreases |q|
  {
    if q != [] {
      assert (m + q)[..|m + q| - 1] == m + q[..|q| - 1];
      StripTrailingRun(m, q[..|q| - 1], c);
    }
  }

  /**
   * Conversely, whatever lies between a leading and a trailing run of `c`,
   * and neither starts nor ends with `c`, is what `strip` returns.
   */
  lemma StripUnique(p: string, m: string, q: string, c: char)
    requires AllChar(p, c) && AllChar(q, c) && Trimmed(m, c)
    ensures Strip(p + m + q, c) == m
  {
    if m == [] {
      StripLeadingRun(p + q, [], c);
      assert p + m + q == (p + q) + [];
      StripTrailingRun([], [], c);
    } else {
      assert p + m + q == p + (m + q);
      StripLeadingRun(p, m + q, c);
      StripTrailingRun(m, q, c);
    }
  }

  /** Stripping twice is stripping once. */
  lemma StripIdempotent(s: string, c: char)
    ensures Strip(Strip(s, c), c) == Strip(s, c)
  {
    var _, _ := StripSpec(s, c);
    StripUnique([], Strip(s, c), [], c);
    assert [] + Strip(s, c) + [] == Strip(s, c);
  }

  // ---------------------------------------------------------- request headers

  const Json: string := "application/json"

  /** `s.startswith(prefix)`. */
  predicate StartsWith(s: string, prefix: string) {
    |prefix| <= |s| && s[..|prefix|] == prefix
  }

  /** Python truthiness of an optional string. */
  predicate Given(s: Option<string>) {
    s.Some? && s.value != []
  }

  /**
   * The value of the `api-secret` header: an access token wins as
   * `token=<token>`; otherwise a secret already of the form `token=...` is
   * passed as is, and any other secret as its SHA-1 hex digest
   * (`sha1Hex`, of the secret's UTF-8 bytes); with neither, no header.
   */
  function ApiSecretHeader(accessToken: Option<string>, apiSecret: Option<string>,
                           sha1Hex: string -> string): (r: Option<string>)
    ensures r.None? <==> !Given(accessToken) && !Given(apiSecret)
  {
    if Given(accessToken) then Some("token=" + accessToken.value)
    else if Given(apiSecret) then
      if StartsWith(apiSecret.value, "token=") then Some(apiSecret.value)
      else Some(sha1Hex(apiSecret.value))
    else None
  }

  /**
   * The header is present exactly when some credential is given; it then
   * has the form `token=...` or is the digest of the secret, and an access
   * token always decides it.
   */
  lemma ApiSecretHeaderSpec(accessToken: Option<string>, apiSecret: Option<string>,
                            sha1Hex: string -> string)
    ensures ApiSecretHeader(accessToken, apiSecret, sha1Hex).None? <==> !Given(accessToken) && !Given(apiSecret)
    ensures Given(accessToken) ==> ApiSecretHeader(accessToken, apiSecret, sha1Hex) == Some("token=" + accessToken.value)
    ensures !Given(accessToken) && Given(apiSecret) ==>
              ApiSecretHeader(accessToken, apiSecret, sha1Hex)
              == Some(if StartsWith(apiSecret.value, "token=") then apiSecret.value else sha1Hex(apiSecret.value))
    ensures ApiSecretHeader(accessToken, apiSecret, sha1Hex).Some? ==>
              var v := ApiSecretHeader(accessToken, apiSecret, sha1Hex).value;
              StartsWith(v, "token=") || (Given(apiSecret) && v == sha1Hex(apiSecret.value))
  {
    if Given(accessToken) {
      assert ("token=" + accessToken.value)[..6] == "token=";
    }
  }

  /** `Api.__request_headers`: JSON content negotiation plus the `api-secret` header. */
  method RequestHeaders(accessToken: Option<string>, apiSecret: Option<string>,
                        sha1Hex: string -> string)
    returns (headers: map<string, string>)
    ensures "Content-Type" in headers && headers["Content-Type"] == Json
    ensures "Accept" in headers && headers["Accept"] == Json
    ensures headers.Keys <= {"Content-Type", "Accept", "api-secret"}
    ensures "api-secret" in headers <==> ApiSecretHeader(accessToken, apiSecret, sha1Hex).Some?
    ensures "api-secret" in headers ==> headers["api-secret"] == ApiSecretHeader(accessToken, apiSecret, sha1Hex).value
  {
    headers := map["Content-Type" := Json, "Accept" := Json];
    if Given(accessToken) {
      headers := headers["api-secret" := "token=" + accessToken.value];
    } else if Given(apiSecret) {
      if StartsWith(apiSecret.value, "token=") {
        headers := headers["api-secret" := apiSecret.value];
      } else {
        headers := headers["api-secret" := sha1Hex(apiSecret.value)];
      }
    }
  }

  /** The client: the normalised server URL and the headers sent with every request. */
  class Api {
    var serverUrl: string
    var headers: map<string, string>

    /** `Api(server_url, access_token=..., api_secret=...)`. */
    constructor (serverUrl: string, accessToken: Option<string>, apiSecret: Option<string>,
                 sha1Hex: string -> string)
      ensures this.serverUrl == Strip(serverUrl, '/')
      ensures "Content-Type" in headers && headers["Content-Type"] == Json
      ensures "Accept" in headers && headers["Accept"] == Json
      ensures headers.Keys <= {"Content-Type", "Accept", "api-secret"}
      ensures "api-secret" in headers <==> ApiSecretHeader(accessToken, apiSecret, sha1Hex).Some?
      ensures "api-secret" in headers ==> headers["api-secret"] == ApiSecretHeader(accessToken, apiSecret, sha1Hex).value
    {
      var headers := RequestHeaders(accessToken, apiSecret, sha1Hex);
      this.serverUrl := Strip(serverUrl, '/');
      this.headers := headers;
    }
  }

  // ------------------------------------------------------------ device status

  datatype Uploader = Uploader(battery: int, kind: string)

  datatype DeviceStatus = DeviceStatus(device: string, createdAt: Instant, uploader: Option<Uploader>)

  function Device(e: DeviceStatus): string {
    e.device
  }

  /** The key of `sort(key=created_at, reverse=True)` as an ascending stable sort. */
  function NewestFirst(e: DeviceStatus): int {
    -e.createdAt
  }

  /** The device names that occur among `results`. */
  function Devices(results: seq<DeviceStatus>): set<string> {
    set i | 0 <= i < |results| :: results[i].device
  }

  /** The head of a group after sorting it newest first. */
  function Latest(group: seq<DeviceStatus>): DeviceStatus
    requires group != []
  {
    Sorting.SortBy(group, NewestFirst)[0]
  }

  /**
   * The chosen status is a newest one of the group, and the first of the
   * newest in group order.
   */
  lemma LatestSpec(group: seq<DeviceStatus>) returns (i: nat)
    requires group != []
    ensures i < |group| && group[i] == Latest(group)
    ensures forall j :: 0 <= j < |group| ==> group[j].createdAt <= Latest(group).createdAt
    ensures forall j :: 0 <= j < i ==> group[j].createdAt < Latest(group).createdAt
  {
    i := Sorting.SortByHead(group, NewestFirst);
    forall j | 0 <= j < |group| ensures group[j].createdAt <= Latest(group).createdAt {
      assert NewestFirst(group[i]) <= NewestFirst(group[j]);
    }
    forall j | 0 <= j < i ensures group[j].createdAt < Latest(group).createdAt {
      assert NewestFirst(group[i]) < NewestFirst(group[j]);
    }
  }

  /**
   * The status chosen for device `d` is one of the inputs, of device `d`,
   * no older than any other status of `d`, and among the newest the first
   * in input order (the group keeps input order).
   */
  lemma LatestOfDevice(results: seq<DeviceStatus>, d: string)
    requires d in Devices(results)
    ensures Sorting.WithKey(results, Device, d) != []
    ensures var g := Sorting.WithKey(results, Device, d);
            && Latest(g) in results && Latest(g).device == d
            && (forall j :: 0 <= j < |results| && results[j].device == d ==> results[j].createdAt <= Latest(g).createdAt)
            && exists i :: 0 <= i < |g| && g[i] == Latest(g) && forall j :: 0 <= j < i ==> g[j].createdAt < Latest(g).createdAt
  {
    var k :| 0 <= k < |results| && results[k].device == d;
    Sorting.WithKeyKeeps(results, Device, d, k);
    var g := Sorting.WithKey(results, Device, d);
    var i := LatestSpec(g);
    Sorting.WithKeyFrom(results, Device, d);
    assert Latest(g) in multiset(results);
    assert Device(g[i]) == d;
    forall j | 0 <= j < |results| && results[j].device == d
      ensures results[j].createdAt <= Latest(g).createdAt
    {
      Sorting.WithKeyKeeps(results, Device, d, j);
    }
  }

  /**
   * The first loop of `get_latest_devices_status`: appends every status to
   * the list of its device, so each list holds that device's statuses in
   * input order.
   */
  method GroupByDevice(results: seq<DeviceStatus>) returns (grouped: map<string, seq<DeviceStatus>>)
    ensures grouped.Keys == Devices(results)
    ensures forall d :: d in grouped ==> grouped[d] == Sorting.WithKey(results, Device, d) && grouped[d] != []
  {
    grouped := map[];
    for i := 0 to |results|
      invariant grouped.Keys == Devices(results[..i])
      invariant forall d :: d in grouped ==> grouped[d] == Sorting.WithKey(results[..i], Device, d) && grouped[d] != []
    {
      var entry := results[i];
      var entries := if entry.device in grouped then grouped[entry.device] else [];
      GroupStep(results, i, grouped);
      grouped := grouped[entry.device := entries + [entry]];
    }
    assert results[..|results|] == results;
  }

  /** Appending status `i` to its device's list keeps the lists equal to the groups. */
  lemma GroupStep(results: seq<DeviceStatus>, i: nat, grouped: map<string, seq<DeviceStatus>>)
    requires i < |results|
    requires grouped.Keys == Devices(results[..i])
    requires forall d :: d in grouped ==> grouped[d] == Sorting.WithKey(results[..i], Device, d)
    ensures var entry := results[i];
            var entries := if entry.device in grouped then grouped[entry.device] else [];
            var next := grouped[entry.device := entries + [entry]];
            next.Keys == Devices(results[..i + 1])
            && forall d :: d in next ==> next[d] == Sorting.WithKey(results[..i + 1], Device, d)
  {
    var entry := results[i];
    var prefix := results[..i];
    if entry.device !in grouped {
      NoneWithKey(prefix, entry.device);
    }
    assert results[..i + 1] == prefix + [entry];
    assert Devices(results[..i + 1]) == Devices(prefix) + {entry.device} by {
      assert forall j :: 0 <= j < i ==> results[..i + 1][j] == prefix[j];
    }
    forall d ensures Sorting.WithKey(results[..i + 1], Device, d)
                     == Sorting.WithKey(prefix, Device, d) + (if d == entry.device then [entry] else []) {
      Sorting.WithKeyAppend(prefix, [entry], Device, d);
      assert [entry][..0] == [];
    }
  }

  /**
   * `get_latest_devices_status` after the fetch: groups the statuses by
   * device, in input order, sorts every group newest first and keeps its
   * head.
   */
  method LatestDevicesStatus(results: seq<DeviceStatus>) returns (output: map<string, DeviceStatus>)
    ensures output.Keys == Devices(results)
    ensures forall d :: d in output ==>
              Sorting.WithKey(results, Device, d) != []
              && output[d] == Latest(Sorting.WithKey(results, Device, d))
  {
    var grouped := GroupByDevice(results);
    output := map[];
    var pending := grouped.Keys;
    while pending != {}
      invariant pending <= grouped.Keys
      invariant output.Keys == grouped.Keys - pending
      invariant forall d :: d in output ==> output[d] == Latest(grouped[d])
      decreases pending
    {
      var d :| d in pending;
      var entries := grouped[d];
      var a := new DeviceStatus[|entries|](k requires 0 <= k < |entries| => entries[k]);
      assert a[..] == entries;
      Sorting.SortInPlace(a, NewestFirst);
      output := output[d := a[0]];
      pending := pending - {d};
    }
  }

  /** A device that does not occur has an empty group. */
  lemma {:induction false} NoneWithKey(results: seq<DeviceStatus>, d: string)
    requires d !in Devices(results)
    ensures Sorting.WithKey(results, Device, d) == []
    decreases |results|
  {
    if results != [] {
      var init := results[..|results| - 1];
      assert Devices(init) <= Devices(results);
      NoneWithKey(init, d);
    }
  }
}
