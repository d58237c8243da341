/** The NextCloud WebDAV client object: its four settings, the NextCloud
    address of the user's file space derived from them, the folder listing and
    the file download. The WebDAV transport is not modelled; what it answers
    is passed in as data (the keys of a PROPFIND answer, the record of a GET). */
module NcWebDavClient {
  import opened PhpStrings
  import opened FolderListing
  import opened FileDownload

  /** The path under which NextCloud serves each user's files over WebDAV. */
  const BasePathPrefix: string := "remote.php/dav/files/"

  class Client {
    var debugOn: bool
    var user: string
    var pass: string
    var domain: string

    /** `initClient`: the settings are stored as given; nothing is checked,
        so empty or malformed values are accepted. Debugging is off unless
        asked for. */
    constructor InitClient(user: string, pass: string, domain: string, debug: bool := false)
      ensures this.user == user && this.pass == pass
      ensures this.domain == domain && this.debugOn == debug
    {
      this.user := user;
      this.pass := pass;
      this.domain := domain;
      this.debugOn := debug;
    }

    /** The user's WebDAV file space on the server: the NextCloud prefix, then
        the user name, then a closing `/`. */
    function GetBasePath(): (r: string)
      reads this
      ensures |r| == |BasePathPrefix| + |user| + 1
      ensures r[..|BasePathPrefix|] == BasePathPrefix
      ensures r[|BasePathPrefix|..|r| - 1] == user
      ensures r[|r| - 1] == '/'
    {
      BasePathPrefix + user + "/"
    }

    /** The address every request is resolved against: the domain exactly as
        configured, a `/`, then the base path. */
    function GetBaseUri(): (r: string)
      reads this
      ensures |r| == |domain| + 1 + |GetBasePath()|
      ensures r[..|domain|] == domain && r[|domain|] == '/'
      ensures r[|domain| + 1..] == GetBasePath()
    {
      domain + "/" + GetBasePath()
    }

    /** `getFolderContents`: goes through the keys of the depth-1 PROPFIND
        answer for `baseFolder` in order and collects every key except those
        that come down to "//" once the base path followed by `baseFolder` is
        removed from them. */
    method GetFolderContents(baseFolder: string, response: seq<string>) returns (matches: seq<string>)
      ensures IsSubsequence(matches, response)
      ensures forall key :: key in matches <==>
                key in response && !IsSelfEntry(GetBasePath() + baseFolder, key)
      ensures Distinct(response) ==> Distinct(matches)
      ensures matches == FolderEntries(GetBasePath() + baseFolder, response)
    {
      matches := [];
      for i := 0 to |response|
        invariant matches == FolderEntries(GetBasePath() + baseFolder, response[..i])
      {
        var idx := response[i];
        if StrReplace(GetBasePath() + baseFolder, "", idx) == "//" {
          assert response[..i + 1] == response[..i] + [idx];
          continue;
        }
        matches := matches + [idx];
        assert response[..i + 1] == response[..i] + [idx];
      }
      assert response[..|response|] == response;
      var needle := GetBasePath() + baseFolder;
      FolderEntriesSubsequence(needle, response);
      forall key ensures key in matches <==> key in response && !IsSelfEntry(needle, key) {
        FolderEntriesMembership(needle, response, key);
      }
      if Distinct(response) {
        FolderEntriesDistinct(needle, response);
      }
    }

    /** `sendFile`: writes "404\n" and stops when the GET of `filePath` did
        not answer 200; otherwise writes the six download headers and then
        the body. */
    method SendFile(filePath: string, contents: GetResponse, out: OutputLog)
      modifies out
      ensures out.events == old(out.events) + SendFileOutput(filePath, contents)
    {
      if contents.statusCode != 200 {
        out.WriteText(NotFoundText);
        return;
      }
      out.WriteHeader(HeaderLine("Content-Type", FirstHeaderValue(contents.headers, "content-type")));
      out.WriteHeader(HeaderLine("Content-Disposition", AttachmentPrefix + Basename(filePath)));
      out.WriteHeader(HeaderLine("Expires", "0"));
      out.WriteHeader(HeaderLine("Cache-Control", "must-revalidate"));
      out.WriteHeader(HeaderLine("Pragma", "public"));
      out.WriteHeader(HeaderLine("Content-Length", FirstHeaderValue(contents.headers, "content-length")));
      out.WriteText(contents.body);
    }
  }

  /** Two clients have the same base path exactly when they have the same
      user name: the user can be read back off the base path. */
  lemma BasePathDeterminesUser(c: Client, d: Client)
    ensures c.GetBasePath() == d.GetBasePath() <==> c.user == d.user
  {
    if c.GetBasePath() == d.GetBasePath() {
      var r := c.GetBasePath();
      assert c.user == r[|BasePathPrefix|..|r| - 1] == d.user;
    }
  }

  /** The domain is not normalised: one that already ends in `/` gives a
      base address with `//` where domain and base path meet. */
  lemma BaseUriKeepsTrailingSlash(c: Client)
    requires c.domain != [] && c.domain[|c.domain| - 1] == '/'
    ensures c.GetBaseUri()[|c.domain| - 1..|c.domain| + 1] == "//"
  {
    var r := c.GetBaseUri();
    assert r[|c.domain| - 1] == c.domain[|c.domain| - 1];
  }

  /** The base address of user `alice` on `https://cloud.example.com`. */
  lemma BaseUriOfAlice(c: Client)
    requires c.user == "alice" && c.domain == "https://cloud.example.com"
    ensures c.GetBaseUri() == "https://cloud.example.com/remote.php/dav/files/alice/"
  {
  }

  /** What the listing removes from each key, the base path followed by the
      folder, starts with `r` and holds a `/` after its first character,
      whatever the user and the folder. */
  lemma FolderNeedleShape(c: Client, baseFolder: string)
    ensures var needle := c.GetBasePath() + baseFolder;
            |needle| >= 2 && needle[0] == 'r' && '/' in needle[1..]
  {
    var needle := c.GetBasePath() + baseFolder;
    assert needle[..|BasePathPrefix|] == BasePathPrefix;
    assert needle[1..][9] == needle[10] == '/';
  }

  /** The keys `/<base path><folder>/` and `<base path><folder>//` are left
      out of the listing. They spell the folder's own entry when the folder
      name is non-empty and does not end in `/`; for the user's root folder
      (an empty name) see `RootOrSlashFolderListsItself`. */
  lemma FolderSelfEntryLeftOut(c: Client, baseFolder: string)
    ensures var needle := c.GetBasePath() + baseFolder;
            IsSelfEntry(needle, "/" + needle + "/") && IsSelfEntry(needle, needle + "//")
  {
    FolderNeedleShape(c, baseFolder);
    SelfKeysAreSelfEntries(c.GetBasePath() + baseFolder);
  }

  /** An answer that holds nothing but the key `/<base path><folder>/` gives
      an empty listing, not an error. That key is the folder's own entry when
      the folder name is non-empty and does not end in `/`. */
  lemma OnlySelfEntryGivesEmptyListing(c: Client, baseFolder: string)
    ensures var needle := c.GetBasePath() + baseFolder;
            FolderEntries(needle, ["/" + needle + "/"]) == []
  {
    var needle := c.GetBasePath() + baseFolder;
    FolderSelfEntryLeftOut(c, baseFolder);
    FolderEntriesOnlySelf(needle, ["/" + needle + "/"]);
  }

  /** A direct child of the folder, `/<base path><folder>/<name>` with a
      non-empty name without `/`, is listed. */
  lemma FolderChildListed(c: Client, baseFolder: string, name: string)
    requires name != [] && '/' !in name
    ensures var needle := c.GetBasePath() + baseFolder;
            !IsSelfEntry(needle, "/" + needle + "/" + name)
  {
    FolderNeedleShape(c, baseFolder);
    ChildKeyIsKept(c.GetBasePath() + baseFolder, name);
  }

  /** For the user's root folder (an empty folder name) and for a folder
      name written with a trailing `/`, the folder's own entry is the key
      `/<base path><folder>`. The test does not recognise that key, so the
      folder is listed among its own contents. */
  lemma RootOrSlashFolderListsItself(c: Client, baseFolder: string)
    requires baseFolder == [] || baseFolder[|baseFolder| - 1] == '/'
    ensures var needle := c.GetBasePath() + baseFolder;
            FolderEntries(needle, ["/" + needle]) == ["/" + needle]
  {
    var needle := c.GetBasePath() + baseFolder;
    FolderNeedleShape(c, baseFolder);
    TrailingSlashSelfKeyIsKept(needle);
    FolderEntriesNoSelf(needle, ["/" + needle]);
  }

  /** Listing the user's root folder keeps the root's own entry
      `/remote.php/dav/files/<user>/`: the root is reported among its own
      contents. */
  lemma RootFolderListsItself(c: Client)
    ensures FolderEntries(c.GetBasePath(), ["/" + c.GetBasePath()]) == ["/" + c.GetBasePath()]
  {
    RootOrSlashFolderListsItself(c, "");
    assert c.GetBasePath() + "" == c.GetBasePath();
  }

  /** The keys of the entries `names` directly inside the folder `needle`,
      each written with `lead` in front. */
  function ChildKeys(lead: string, needle: string, names: seq<string>): (keys: seq<string>)
    ensures |keys| == |names|
  {
    seq(|names|, i requires 0 <= i < |names| => lead + needle + "/" + names[i])
  }

  /** An answer made of a self key, in either of the spellings
      `/<base path><folder>/` and `<base path><folder>//` (the folder's own
      entry when the folder name is non-empty and does not end in `/`),
      followed by the folder's direct children (non-empty names without `/`, each key
      written with or without a leading `/`) is listed as the children, in
      the answer's order. */
  lemma ListingOfFolder(c: Client, baseFolder: string, self: string, lead: string, names: seq<string>)
    requires self == "/" + c.GetBasePath() + baseFolder + "/" || self == c.GetBasePath() + baseFolder + "//"
    requires lead == "" || lead == "/"
    requires forall i :: 0 <= i < |names| ==> names[i] != [] && '/' !in names[i]
    ensures var needle := c.GetBasePath() + baseFolder;
            FolderEntries(needle, [self] + ChildKeys(lead, needle, names)) == ChildKeys(lead, needle, names)
  {
    var needle := c.GetBasePath() + baseFolder;
    var children := ChildKeys(lead, needle, names);
    FolderNeedleShape(c, baseFolder);
    FolderSelfEntryLeftOut(c, baseFolder);
    assert "/" + c.GetBasePath() + baseFolder + "/" == "/" + needle + "/";
    forall i | 0 <= i < |children| ensures !IsSelfEntry(needle, children[i]) {
      if lead == "/" {
        ChildKeyIsKept(needle, names[i]);
      } else {
        BareChildKeyIsKept(needle, names[i]);
        assert children[i] == needle + "/" + names[i];
      }
    }
    FolderEntriesAppend(needle, [self], children);
    FolderEntriesOnlySelf(needle, [self]);
    FolderEntriesNoSelf(needle, children);
  }
}
