/**
 * The SMB fetch probe (`Test/test_smb_fetch.py`): reading a media file's
 * locations and credentials from two query results, and turning the stored
 * host and source path into the server, share, tree path and file path of a
 * connection attempt. The database queries and the SMB session itself are
 * inputs and outputs of the model, not part of it.
 */
module SmbFetch {
  import opened Wrappers
  import opened Text

  const Scheme: string := "smb://"

  /** The port `Connection(uuid, host, 445)` dials. */
  const SmbPort: nat := 445

  // ---------------------------------------------------------------------------
  // rows and records

  /** The first row of the media/scan-source join. */
  datatype MediaRow = MediaRow(filePath: string, sourcePath: string, credentialId: Option<int>)

  /**
   * A value of the decoded `AuthData` object. The fields are passed through
   * untouched, so a value that is not a string is kept as its JSON text
   * (`null`, a number, a list, ...).
   */
  datatype JsonValue = JString(s: string) | JOther(json: string)

  /**
   * The credential row: `AuthData` after `json.loads`, and `Host`.
   * `authData` is `None` when the column does not decode to a JSON object:
   * `json.loads` raises, or it yields a list, string or number, which has
   * no `.get`.
   */
  datatype CredentialRow = CredentialRow(authData: Option<map<string, JsonValue>>, host: string)

  /** The dictionary `get_media_info` returns. */
  datatype MediaInfo = MediaInfo(
    filePath: string, sourcePath: string, credHost: string, username: JsonValue, password: JsonValue)

  /** `auth_data.get(key, "")`. */
  function AuthField(auth: map<string, JsonValue>, key: string): JsonValue {
    if key in auth then auth[key] else JString("")
  }

  /** Python truthiness of the `StorageCredentialId` column: `None` and `0` are false. */
  predicate HasCredential(id: Option<int>) {
    id.Some? && id.value != 0
  }

  /**
   * `get_media_info`. `databaseFails` stands for any exception the driver
   * raises; it and every missing piece yield `None`.
   */
  function GetMediaInfo(databaseFails: bool, media: Option<MediaRow>, credential: Option<CredentialRow>)
    : (info: Option<MediaInfo>)
    ensures info.Some? <==>
              && !databaseFails && media.Some? && HasCredential(media.value.credentialId)
              && credential.Some? && credential.value.authData.Some?
    ensures info.Some? ==>
              && info.value.filePath == media.value.filePath
              && info.value.sourcePath == media.value.sourcePath
              && info.value.credHost == credential.value.host
    ensures info.Some? ==> var auth := credential.value.authData.value;
              && ("username" in auth ==> info.value.username == auth["username"])
              && ("username" !in auth ==> info.value.username == JString(""))
              && ("password" in auth ==> info.value.password == auth["password"])
              && ("password" !in auth ==> info.value.password == JString(""))
  {
    if databaseFails || media.None? then None
    else if !HasCredential(media.value.credentialId) then None
    else if credential.None? || credential.value.authData.None? then None
    else
      var auth := credential.value.authData.value;
      Some(MediaInfo(media.value.filePath, media.value.sourcePath, credential.value.host,
                     AuthField(auth, "username"), AuthField(auth, "password")))
  }

  // ---------------------------------------------------------------------------
  // locators

  /** `host.replace("smb://", "").split("/")[0]` for a host given as a URL; any other host as is. */
  function NormalizeHost(host: string): string {
    if StartsWith(host, Scheme) then FirstField(RemoveAll(host, Scheme), '/') else host
  }

  predicate InNetloc(c: char) { c != '/' && c != '?' && c != '#' }

  predicate InPath(c: char) { c != '?' && c != '#' }

  predicate IsSlash(c: char) { c == '/' }

  /**
   * `urlparse(url).path` for a URL that starts with `smb://`: the network
   * location runs to the first `/`, `?` or `#`, and the path from there to
   * the first `?` or `#`.
   */
  function UrlPath(url: string): string
    requires StartsWith(url, Scheme)
  {
    var rest := url[|Scheme|..];
    var afterNetloc := rest[LeadingCount(rest, InNetloc)..];
    afterNetloc[..LeadingCount(afterNetloc, InPath)]
  }

  /**
   * The share name: the first segment of the URL path with its slashes
   * stripped for an `smb://` source; otherwise the first segment of the
   * source with backslashes read as slashes. An `smb://` source whose path
   * names no share gets no fallback.
   */
  function ShareName(sourcePath: string): string {
    if StartsWith(sourcePath, Scheme) then FirstField(Trim(UrlPath(sourcePath), IsSlash), '/')
    else FirstField(ReplaceChar(sourcePath, '\\', '/'), '/')
  }

  /** The UNC path of the share: `\\host\share`. */
  function TreePath(host: string, share: string): string {
    "\\\\" + host + "\\" + share
  }

  /** What `download_file` goes on to do. */
  datatype Attempt =
    | NoShare   // "Could not determine Share Name from Source Path." and return
    | Connect(host: string, port: nat, username: JsonValue, password: JsonValue,
              share: string, treePath: string, targetPath: string)

  /**
   * `download_file` up to the network calls: the host, the share and the
   * target path, computed in the order the source computes them.
   */
  method DownloadFile(info: MediaInfo) returns (a: Attempt)
    ensures a.NoShare? <==> ShareName(info.sourcePath) == ""
    ensures a.Connect? ==>
              && a.host == NormalizeHost(info.credHost)
              && a.port == SmbPort
              && a.username == info.username && a.password == info.password
              && a.share == ShareName(info.sourcePath)
              && a.treePath == TreePath(a.host, a.share)
              && a.targetPath == ReplaceChar(info.filePath, '/', '\\')
  {
    var host := info.credHost;
    if StartsWith(host, Scheme) {
      SplitHead(RemoveAll(host, Scheme), '/');
      host := Split(RemoveAll(host, Scheme), '/')[0];
    }
    var username := info.username;
    var password := info.password;

    var share := "";
    if StartsWith(info.sourcePath, Scheme) {
      var pathParts := Split(Trim(UrlPath(info.sourcePath), IsSlash), '/');
      SplitHead(Trim(UrlPath(info.sourcePath), IsSlash), '/');
      if |pathParts| > 0 {
        share := pathParts[0];
      }
    }
    if share == "" {
      var parts := Split(ReplaceChar(info.sourcePath, '\\', '/'), '/');
      SplitHead(ReplaceChar(info.sourcePath, '\\', '/'), '/');
      if |parts| > 0 && !StartsWith(info.sourcePath, Scheme) {
        share := parts[0];
      }
    }
    if share == "" {
      return NoShare;
    }

    var targetPath := ReplaceChar(info.filePath, '/', '\\');
    return Connect(host, SmbPort, username, password, share, TreePath(host, share), targetPath);
  }

  // ---------------------------------------------------------------------------
  // properties

  /** `replace` removes the scheme at the front like any other occurrence. */
  lemma RemoveLeadingScheme(x: string)
    ensures RemoveAll(Scheme + x, Scheme) == RemoveAll(x, Scheme)
  {
    var s := Scheme + x;
    assert s[..|Scheme|] == Scheme && s[|Scheme|..] == x;
  }

  /** No occurrence of the scheme starts inside a name without `/` and `:` that is followed by a `/` or nothing. */
  lemma NoSchemeInside(name: string, b: string)
    requires '/' !in name && ':' !in name
    requires b == [] || b[0] == '/'
    ensures forall i :: 0 <= i < |name| ==> !StartsWith(name[i..] + b, Scheme)
  {
    forall i | 0 <= i < |name|
      ensures !StartsWith(name[i..] + b, Scheme)
    {
      var t := name[i..] + b;
      if i + 3 < |name| {
        assert t[3] == name[i + 3] && name[i + 3] != ':';
      } else if |t| > |name| - i {
        assert t[|name| - i] == '/';
      }
    }
  }

  /** After the schemes are gone, the host is the name in front of the first `/`. */
  lemma HostBeforeSlash(name: string, rest: string)
    requires '/' !in name && ':' !in name
    ensures FirstField(RemoveAll(name + "/" + rest, Scheme), '/') == name
  {
    var tail := "/" + rest;
    assert name + "/" + rest == name + tail;
    NoSchemeInside(name, tail);
    RemoveAllKeepsPrefix(name, tail, Scheme);
    assert tail[1..] == rest;
    assert RemoveAll(tail, Scheme)[0] == '/';
    FirstFieldOf(name, '/', RemoveAll(tail, Scheme));
  }

  /** A host that starts with the scheme loses every occurrence of it, then everything from its first `/`. */
  lemma UrlHost(x: string)
    ensures NormalizeHost(Scheme + x) == FirstField(RemoveAll(x, Scheme), '/')
  {
    assert StartsWith(Scheme + x, Scheme) by { assert (Scheme + x)[..|Scheme|] == Scheme; }
    RemoveLeadingScheme(x);
  }

  /**
   * A host stored as `smb://name` or `smb://name/...` becomes `name`, for
   * any name without `/` and `:`.
   */
  lemma HostFromUrl(name: string, rest: string)
    requires '/' !in name && ':' !in name
    ensures NormalizeHost(Scheme + name) == name
    ensures NormalizeHost(Scheme + name + "/" + rest) == name
  {
    assert NormalizeHost(Scheme + name) == name by {
      UrlHost(name);
      NoSchemeInside(name, []);
      RemoveAllKeepsPrefix(name, [], Scheme);
      assert name + [] == name;
    }
    var x := name + "/" + rest;
    assert Scheme + name + "/" + rest == Scheme + x;
    assert NormalizeHost(Scheme + x) == name by {
      UrlHost(x);
      HostBeforeSlash(name, rest);
    }
  }

  /** Every `smb://` is removed, not only the first: `smb://smb://name/...` is `name` too. */
  lemma RepeatedScheme(name: string, rest: string)
    requires '/' !in name && ':' !in name
    ensures NormalizeHost(Scheme + Scheme + name + "/" + rest) == name
  {
    var x := name + "/" + rest;
    assert Scheme + Scheme + name + "/" + rest == Scheme + (Scheme + x);
    assert NormalizeHost(Scheme + (Scheme + x)) == name by {
      UrlHost(Scheme + x);
      RemoveLeadingScheme(x);
      HostBeforeSlash(name, rest);
    }
  }

  /**
   * For `smb://` followed by a host and the rest, the share comes from the
   * rest up to `?` or `#`: `urlparse` reads the host as the network location.
   */
  lemma UrlShare(host: string, after: string)
    requires forall k :: 0 <= k < |host| ==> InNetloc(host[k])
    requires after == [] || !InNetloc(after[0])
    ensures ShareName(Scheme + host + after)
            == FirstField(Trim(after[..LeadingCount(after, InPath)], IsSlash), '/')
  {
    var url := Scheme + host + after;
    assert StartsWith(url, Scheme) by { assert url[..|Scheme|] == Scheme; }
    var rest := url[|Scheme|..];
    assert rest == host + after;
    LeadingCountExact(rest, InNetloc, |host|);
    assert rest[|host|..] == after;
  }

  /**
   * `smb://host/share...`: the share is the first path segment, however
   * many slashes precede it and whatever query, fragment or further
   * segments follow it.
   */
  lemma ShareFromUrl(host: string, slashes: string, share: string, tail: string)
    requires forall k :: 0 <= k < |host| ==> InNetloc(host[k])
    requires slashes != [] && forall k :: 0 <= k < |slashes| ==> IsSlash(slashes[k])
    requires share != [] && forall k :: 0 <= k < |share| ==> InNetloc(share[k])
    requires tail == [] || !InNetloc(tail[0])
    ensures ShareName(Scheme + host + slashes + share + tail) == share
  {
    var after := slashes + share + tail;
    assert Scheme + host + slashes + share + tail == Scheme + host + after;
    UrlShare(host, after);
    PathStartsWithShare(slashes, share, tail);
    ShareFromPath(after[..LeadingCount(after, InPath)], slashes, share);
  }

  /** The path part of `slashes + share + tail` holds the slashes and the share, then a `/` or nothing. */
  lemma PathStartsWithShare(slashes: string, share: string, tail: string)
    requires forall k :: 0 <= k < |slashes| ==> IsSlash(slashes[k])
    requires forall k :: 0 <= k < |share| ==> InNetloc(share[k])
    requires tail == [] || !InNetloc(tail[0])
    ensures var after, head := slashes + share + tail, |slashes| + |share|;
            var path := after[..LeadingCount(after, InPath)];
            && head <= |path| && path[..head] == slashes + share
            && (|path| > head ==> path[head] == '/')
  {
    var after := slashes + share + tail;
    var head := |slashes| + |share|;
    assert after[..head] == slashes + share;
    LeadingCountAtLeast(after, InPath, head);
    var n := LeadingCount(after, InPath);
    if n > head {
      assert after[head] == tail[0] && InPath(after[head]);
    }
    assert after[..n][..head] == after[..head];
  }

  /** The path step of `ShareFromUrl`: stripping the slashes leaves the share in front. */
  lemma ShareFromPath(path: string, slashes: string, share: string)
    requires slashes != [] && forall k :: 0 <= k < |slashes| ==> IsSlash(slashes[k])
    requires share != [] && forall k :: 0 <= k < |share| ==> InNetloc(share[k])
    requires |slashes| + |share| <= |path| && path[..|slashes| + |share|] == slashes + share
    requires |path| > |slashes| + |share| ==> path[|slashes| + |share|] == '/'
    ensures FirstField(Trim(path, IsSlash), '/') == share
  {
    var i, head := |slashes|, |slashes| + |share|;
    assert LeadingCount(path, IsSlash) == i by {
      assert forall k :: 0 <= k < i ==> path[k] == slashes[k];
      assert path[i] == share[0];
      LeadingCountExact(path, IsSlash, i);
    }
    var r := Trim(path, IsSlash);
    assert i + |share| <= i + |r| <= |path| && r == path[i..i + |r|] by {
      assert path[head - 1] == share[|share| - 1];
      TrimCovers(path, IsSlash, head - 1);
    }
    assert r == share + r[|share|..] by {
      assert r[..|share|] == path[i..head] == (slashes + share)[i..];
    }
    FirstFieldOf(share, '/', r[|share|..]);
  }

  /** `smb://host` and `smb://host/` name no share, and the attempt stops there. */
  lemma NoShareInUrl(host: string, slashes: string)
    requires forall k :: 0 <= k < |host| ==> InNetloc(host[k])
    requires forall k :: 0 <= k < |slashes| ==> IsSlash(slashes[k])
    ensures ShareName(Scheme + host + slashes) == ""
  {
    UrlShare(host, slashes);
    LeadingCountExact(slashes, InPath, |slashes|);
    assert slashes[..|slashes|] == slashes;
    TrimIsMaximal(slashes, IsSlash);
  }

  /**
   * A plain source `share/...` or `share\...` gives its first segment.
   */
  lemma ShareFromPlainPath(share: string, sep: char, rest: string)
    requires sep == '/' || sep == '\\'
    requires '/' !in share && '\\' !in share
    requires !StartsWith(share + [sep] + rest, Scheme)
    ensures ShareName(share + [sep] + rest) == share
  {
    var src := share + [sep] + rest;
    var r := ReplaceChar(src, '\\', '/');
    assert r[..|share|] == share;
    assert r == share + r[|share|..];
    FirstFieldOf(share, '/', r[|share|..]);
  }

  /**
   * A source that starts with a separator, such as a UNC path
   * `\\server\share`, gives an empty share: the attempt stops.
   */
  lemma LeadingSeparatorGivesNoShare(src: string)
    requires src != [] && (src[0] == '/' || src[0] == '\\')
    ensures ShareName(src) == ""
  {
    assert src[0] != Scheme[0];
    assert !StartsWith(src, Scheme);
    var r := ReplaceChar(src, '\\', '/');
    assert r[0] == '/';
    FirstFieldOf([], '/', r);
    assert [] + r == r;
  }

  /** A leading separator splits off an empty first field. */
  lemma SplitLeadingSeparator(t: string, sep: char)
    requires t != [] && t[0] == sep
    ensures Split(t, sep) == [""] + Split(t[1..], sep)
  {
    assert t == [] + [sep] + t[1..];
    SplitAt([], sep, t[1..]);
  }

  /** The tree path splits at its backslashes into two empty fields, the host and the share. */
  lemma TreePathSplits(host: string, share: string)
    requires '\\' !in host && '\\' !in share
    ensures Split(TreePath(host, share), '\\') == ["", "", host, share]
  {
    var t := TreePath(host, share);
    var inner := host + ['\\'] + share;
    assert t[1..][1..] == inner;
    SplitAt(host, '\\', share);
    SplitLeadingSeparator(t[1..], '\\');
    SplitLeadingSeparator(t, '\\');
  }
}
