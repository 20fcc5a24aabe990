/** The `load_near_credentials` command: scan `~/.near-credentials/<network>/`
    for `<account>.json` key files and return one credential per file that
    parses, keeping the scan order.

    The file system is an input: whether a home directory exists, and the
    listing of the credentials directory as the OS returns it (each entry
    with its name, its type, and for a sub-directory its own listing; each
    file with its name, whether it is a regular file, and its text if it can
    be read). The JSON parse of a key file is the function `parse`. */
module NearCredentials {
  import opened Wrappers
  import Utf8

  // ---------------------------------------------------------------------------
  // File names

  /** One unit of an OS file name: a character, or a byte that is not part of
      valid UTF-8 (Unix file names are arbitrary bytes). */
  datatype NameUnit = Ch(c: char) | NonUtf8(b: HighByte)

  /** A byte that cannot stand for an ASCII character on its own. */
  type HighByte = b: int | 0x80 <= b < 0x100 witness 0x80

  type OsName = seq<NameUnit>

  /** The name as text, as `OsStr::to_str` gives it: None when any byte is not UTF-8. */
  function ToStr(n: OsName): (r: Option<string>)
    ensures r.Some? <==> forall i :: 0 <= i < |n| ==> n[i].Ch?
    ensures r.Some? ==> |r.value| == |n| && forall i :: 0 <= i < |n| ==> r.value[i] == n[i].c
  {
    if n == [] then Some([])
    else if !n[0].Ch? then None
    else match ToStr(n[1..])
      case None => None
      case Some(rest) => Some([n[0].c] + rest)
  }

  /** The OS name of a text. */
  function FromStr(s: string): (n: OsName)
    ensures ToStr(n) == Some(s)
  {
    var n := seq(|s|, i requires 0 <= i < |s| => Ch(s[i]));
    assert ToStr(n).value == s;
    n
  }

  /** Index of the last '.' in a name. */
  function LastDot(n: OsName): (k: Option<nat>)
    ensures k.Some? ==> k.value < |n| && n[k.value] == Ch('.') && forall i :: k.value < i < |n| ==> n[i] != Ch('.')
    ensures k.None? ==> forall i :: 0 <= i < |n| ==> n[i] != Ch('.')
  {
    if n == [] then None
    else if n[|n| - 1] == Ch('.') then Some(|n| - 1)
    else LastDot(n[..|n| - 1])
  }

  /** Rust's split of a file name at its last dot into the parts before and
      after it. A name whose only dot is its first character, and the name
      "..", have no extension. */
  function SplitAtDot(n: OsName): (Option<OsName>, Option<OsName>) {
    if n == [Ch('.'), Ch('.')] then (Some(n), None)
    else match LastDot(n)
      case None => (None, Some(n))
      case Some(k) => if k == 0 then (Some(n), None) else (Some(n[..k]), Some(n[k + 1..]))
  }

  /** `Path::file_stem`. */
  function FileStem(n: OsName): (stem: Option<OsName>)
    ensures stem.Some?
    ensures Extension(n).Some? ==> n == stem.value + [Ch('.')] + Extension(n).value
    ensures Extension(n).None? ==> stem.value == n
  {
    var (before, after) := SplitAtDot(n);
    if before.Some? then before else after
  }

  /** `Path::extension`. */
  function Extension(n: OsName): (ext: Option<OsName>)
    ensures ext.Some? ==>
      && |ext.value| + 1 < |n|
      && n[|n| - |ext.value| - 1] == Ch('.')
      && n[|n| - |ext.value|..] == ext.value
      && Ch('.') !in ext.value
    ensures ext.None? <==> n == [Ch('.'), Ch('.')] || forall i :: 0 < i < |n| ==> n[i] != Ch('.')
  {
    var (before, after) := SplitAtDot(n);
    if before.Some? then after else None
  }

  /** `path.extension().and_then(|s| s.to_str()) == Some("json")`. */
  predicate HasJsonExtension(n: OsName) {
    Extension(n).Some? && ToStr(Extension(n).value) == Some("json")
  }

  /** A dot with no dot after it is the last dot. */
  lemma LastDotAt(n: OsName, k: nat)
    requires k < |n| && n[k] == Ch('.')
    requires forall i :: k < i < |n| ==> n[i] != Ch('.')
    ensures LastDot(n) == Some(k)
  {
  }

  lemma EndingInJsonHasExtension(n: OsName)
    requires |n| > 5 && n[|n| - 5..] == FromStr(".json")
    ensures HasJsonExtension(n) && FileStem(n) == Some(n[..|n| - 5])
  {
    var tail := n[|n| - 5..];
    assert tail == [Ch('.'), Ch('j'), Ch('s'), Ch('o'), Ch('n')];
    assert forall i :: |n| - 5 <= i < |n| ==> n[i] == tail[i - (|n| - 5)];
    LastDotAt(n, |n| - 5);
    assert n[|n| - 4..] == FromStr("json");
  }

  lemma JsonExtensionEndsInJson(n: OsName)
    requires HasJsonExtension(n)
    ensures |n| > 5 && n[|n| - 5..] == FromStr(".json")
  {
    var k := LastDot(n).value;
    var ext := n[k + 1..];
    assert ToStr(ext) == Some("json");
    assert |ext| == 4;
    assert n[|n| - 5..] == [n[k]] + ext;
    assert forall i :: 0 <= i < 4 ==> ext[i] == Ch("json"[i]);
  }

  /** A name has the `json` extension exactly when it ends in ".json" after
      at least one other unit, and its stem is then everything before. */
  lemma JsonExtensionIff(n: OsName)
    ensures HasJsonExtension(n) <==> |n| > 5 && n[|n| - 5..] == FromStr(".json")
    ensures HasJsonExtension(n) ==> FileStem(n) == Some(n[..|n| - 5])
  {
    if |n| > 5 && n[|n| - 5..] == FromStr(".json") {
      EndingInJsonHasExtension(n);
    }
    if HasJsonExtension(n) {
      JsonExtensionEndsInJson(n);
      EndingInJsonHasExtension(n);
    }
  }

  // ---------------------------------------------------------------------------
  // The file system as the loader sees it

  datatype FileType = Dir | File | Symlink

  /** A directory listing: unreadable, or its entries in the order the OS
      returns them, each None when the OS reported an error for it. */
  datatype Listing<T> = Unreadable | Entries(entries: seq<Option<T>>)

  /** A file in a network directory. `isFile` is `Path::is_file` (false when
      the file's metadata cannot be read); `content` is its text, None when
      it cannot be read as UTF-8. */
  datatype KeyFile = KeyFile(name: OsName, isFile: bool, content: Option<string>)

  /** An entry of the credentials directory. `fileType` is None when its type
      cannot be read. */
  datatype NetworkDir = NetworkDir(name: OsName, fileType: Option<FileType>, listing: Listing<KeyFile>)

  /** The home directory, if there is one, with the listing of its `.near-credentials`. */
  datatype Home = NoHome | Home(credentialsDir: Listing<NetworkDir>)

  /** The two fields a key file must hold; other fields are ignored. */
  datatype RawCredential = RawCredential(publicKey: string, privateKey: string)

  datatype NearCredential = NearCredential(accountId: string, publicKey: string, network: string, privateKey: Option<string>)

  datatype CredentialResponse = CredentialResponse(credentials: seq<NearCredential>, error: Option<string>)

  const NoHomeError := "Could not find home directory"
  const UnreadableDirError := "Failed to read credentials directory"

  // ---------------------------------------------------------------------------
  // What the loader returns

  /** The network a directory entry stands for: its name, or "" when the
      name is not UTF-8. */
  function NetworkName(d: NetworkDir): (name: string)
    ensures ToStr(d.name).Some? ==> name == ToStr(d.name).value
    ensures ToStr(d.name).None? ==> name == ""
  {
    ToStr(d.name).GetOr("")
  }

  /** An entry is scanned when it could be read, is a directory, and is named
      `mainnet` or `testnet`. */
  predicate IsScanned(d: Option<NetworkDir>): (scanned: bool)
    ensures scanned <==>
      && d.Some? && d.value.fileType == Some(Dir)
      && (ToStr(d.value.name) == Some("mainnet") || ToStr(d.value.name) == Some("testnet"))
  {
    && d.Some?
    && d.value.fileType == Some(Dir)
    && (NetworkName(d.value) == "mainnet" || NetworkName(d.value) == "testnet")
  }

  /** The credential one directory entry of a network directory yields. */
  function FileCredential(f: Option<KeyFile>, network: string, parse: string -> Option<RawCredential>): (r: Option<NearCredential>)
    ensures r.Some? ==> r.value.network == network && r.value.privateKey.Some?
  {
    match f
    case None => None
    case Some(file) =>
      if !file.isFile || !HasJsonExtension(file.name) then None
      else
        var stem := if FileStem(file.name).Some? then ToStr(FileStem(file.name).value) else None;
        match stem
        case None => None
        case Some(accountId) =>
          match file.content
          case None => None
          case Some(text) =>
            match parse(text)
            case None => None
            case Some(raw) => Some(NearCredential(accountId, raw.publicKey, network, Some(raw.privateKey)))
  }

  /** A file yields a credential exactly when it is a readable regular file
      named `<account>.json` with a UTF-8 stem and content that parses; the
      credential then carries that stem, the directory's network, and the
      parsed key pair. */
  lemma FileCredentialSource(f: Option<KeyFile>, network: string, parse: string -> Option<RawCredential>)
    ensures FileCredential(f, network, parse).Some? <==>
      && f.Some? && f.value.isFile && HasJsonExtension(f.value.name)
      && FileStem(f.value.name).Some? && ToStr(FileStem(f.value.name).value).Some?
      && f.value.content.Some? && parse(f.value.content.value).Some?
    ensures FileCredential(f, network, parse).Some? ==>
      var c := FileCredential(f, network, parse).value;
      var raw := parse(f.value.content.value).value;
      && Some(c.accountId) == ToStr(FileStem(f.value.name).value)
      && c.network == network
      && c.publicKey == raw.publicKey
      && c.privateKey == Some(raw.privateKey)
  {
  }

  function AsSeq<T>(o: Option<T>): seq<T> {
    if o.Some? then [o.value] else []
  }

  /** The credentials of the files of one network directory, in listing order. */
  function FilesCredentials(files: seq<Option<KeyFile>>, network: string, parse: string -> Option<RawCredential>): seq<NearCredential>
  {
    if files == [] then []
    else FilesCredentials(files[..|files| - 1], network, parse) + AsSeq(FileCredential(files[|files| - 1], network, parse))
  }

  /** The credentials one entry of the credentials directory contributes. */
  function DirCredentials(d: Option<NetworkDir>, parse: string -> Option<RawCredential>): seq<NearCredential> {
    if IsScanned(d) && d.value.listing.Entries? then
      FilesCredentials(d.value.listing.entries, NetworkName(d.value), parse)
    else []
  }

  /** The credentials of all entries of the credentials directory, in listing order. */
  function AllCredentials(dirs: seq<Option<NetworkDir>>, parse: string -> Option<RawCredential>): seq<NearCredential> {
    if dirs == [] then []
    else AllCredentials(dirs[..|dirs| - 1], parse) + DirCredentials(dirs[|dirs| - 1], parse)
  }

  /** The response of the loader for a given file system. */
  function LoadCredentials(home: Home, parse: string -> Option<RawCredential>): (r: CredentialResponse)
    ensures r.error.Some? <==> home.NoHome? || home.credentialsDir.Unreadable?
    ensures r.error.Some? ==> r.credentials == []
  {
    match home
    case NoHome => CredentialResponse([], Some(NoHomeError))
    case Home(Unreadable) => CredentialResponse([], Some(UnreadableDirError))
    case Home(Entries(dirs)) => CredentialResponse(AllCredentials(dirs, parse), None)
  }

  // ---------------------------------------------------------------------------
  // The loader

  /** `load_near_credentials`: walks the credentials directory and each
      network directory in it, pushing one credential per key file that
      parses and skipping everything else. */
  method LoadNearCredentials(home: Home, parse: string -> Option<RawCredential>) returns (response: CredentialResponse)
    ensures response == LoadCredentials(home, parse)
  {
    if home.NoHome? {
      return CredentialResponse([], Some(NoHomeError));
    }
    if home.credentialsDir.Unreadable? {
      return CredentialResponse([], Some(UnreadableDirError));
    }
    var dirs := home.credentialsDir.entries;
    var credentials: seq<NearCredential> := [];
    var i := 0;
    while i < |dirs|
      invariant 0 <= i <= |dirs|
      invariant credentials == AllCredentials(dirs[..i], parse)
    {
      var entry := dirs[i];
      if IsScanned(entry) && entry.value.listing.Entries? {
        credentials := ScanNetworkDir(credentials, entry.value.listing.entries, NetworkName(entry.value), parse);
      }
      AllCredentialsStep(dirs, i, parse);
      i := i + 1;
    }
    assert dirs[..|dirs|] == dirs;
    response := CredentialResponse(credentials, None);
  }

  lemma AllCredentialsStep(dirs: seq<Option<NetworkDir>>, i: nat, parse: string -> Option<RawCredential>)
    requires i < |dirs|
    ensures AllCredentials(dirs[..i + 1], parse) == AllCredentials(dirs[..i], parse) + DirCredentials(dirs[i], parse)
  {
    assert dirs[..i + 1][..i] == dirs[..i];
  }

  /** The inner loop of the loader over the files of one network directory:
      pushes onto `credentials` the credential of every key file that parses. */
  method ScanNetworkDir(credentials: seq<NearCredential>, files: seq<Option<KeyFile>>, network: string, parse: string -> Option<RawCredential>)
    returns (pushed: seq<NearCredential>)
    ensures pushed == credentials + FilesCredentials(files, network, parse)
  {
    pushed := credentials;
    var j := 0;
    while j < |files|
      invariant 0 <= j <= |files|
      invariant pushed == credentials + FilesCredentials(files[..j], network, parse)
    {
      var credential := ReadKeyFile(files[j], network, parse);
      FilesCredentialsStep(credentials, files, j, network, parse);
      if credential.Some? {
        pushed := pushed + [credential.value];
      }
      j := j + 1;
    }
    assert files[..|files|] == files;
  }

  lemma FilesCredentialsStep(credentials: seq<NearCredential>, files: seq<Option<KeyFile>>, j: nat, network: string, parse: string -> Option<RawCredential>)
    requires j < |files|
    ensures credentials + FilesCredentials(files[..j + 1], network, parse)
      == credentials + FilesCredentials(files[..j], network, parse) + AsSeq(FileCredential(files[j], network, parse))
  {
    assert files[..j + 1][..j] == files[..j];
  }

  /** The body of the inner loop for one entry: the checks in the order the
      loader makes them, any failing one skipping the entry. */
  method ReadKeyFile(file: Option<KeyFile>, network: string, parse: string -> Option<RawCredential>)
    returns (credential: Option<NearCredential>)
    ensures credential == FileCredential(file, network, parse)
  {
    if file.None? {
      return None;
    }
    var path := file.value;
    if !path.isFile || !HasJsonExtension(path.name) {
      return None;
    }
    var stem := FileStem(path.name);
    var accountId := if stem.Some? then ToStr(stem.value) else None;
    if accountId.None? {
      return None;
    }
    if path.content.None? {
      return None;
    }
    var raw := parse(path.content.value);
    if raw.None? {
      return None;
    }
    credential := Some(NearCredential(accountId.value, raw.value.publicKey, network, Some(raw.value.privateKey)));
  }

  // ---------------------------------------------------------------------------
  // Properties of the loader's result

  /** Where a credential comes from: a scanned network directory and a file in
      it that yields exactly this credential. */
  ghost predicate ComesFrom(c: NearCredential, dirs: seq<Option<NetworkDir>>, parse: string -> Option<RawCredential>) {
    exists d, f ::
      && d in dirs && IsScanned(d) && d.value.listing.Entries?
      && f in d.value.listing.entries
      && FileCredential(f, NetworkName(d.value), parse) == Some(c)
  }

  lemma {:induction false} FilesCredentialsFrom(files: seq<Option<KeyFile>>, network: string, parse: string -> Option<RawCredential>)
    ensures forall c :: c in FilesCredentials(files, network, parse) ==>
      exists f :: f in files && FileCredential(f, network, parse) == Some(c)
  {
    if files != [] {
      var init := files[..|files| - 1];
      FilesCredentialsFrom(init, network, parse);
      assert forall f :: f in init ==> f in files;
    }
  }

  lemma {:induction false} AllCredentialsFrom(dirs: seq<Option<NetworkDir>>, parse: string -> Option<RawCredential>)
    ensures forall c :: c in AllCredentials(dirs, parse) ==> ComesFrom(c, dirs, parse)
  {
    if dirs != [] {
      var init := dirs[..|dirs| - 1];
      var d := dirs[|dirs| - 1];
      AllCredentialsFrom(init, parse);
      forall c | c in AllCredentials(dirs, parse)
        ensures ComesFrom(c, dirs, parse)
      {
        if c in AllCredentials(init, parse) {
          var d', f' :| d' in init && IsScanned(d') && d'.value.listing.Entries?
            && f' in d'.value.listing.entries && FileCredential(f', NetworkName(d'.value), parse) == Some(c);
          assert d' in dirs;
        } else {
          assert c in DirCredentials(d, parse);
          FilesCredentialsFrom(d.value.listing.entries, NetworkName(d.value), parse);
        }
      }
    }
  }

  /** Every credential returned comes from a regular `.json` file in a
      `mainnet` or `testnet` directory: its network is that directory's name,
      its account id the file's stem, and its keys those the file parses to;
      the private key is always present. */
  lemma LoadedCredentialsProvenance(dirs: seq<Option<NetworkDir>>, parse: string -> Option<RawCredential>)
    ensures forall c :: c in LoadCredentials(Home(Entries(dirs)), parse).credentials ==>
      && (c.network == "mainnet" || c.network == "testnet")
      && c.privateKey.Some?
      && ComesFrom(c, dirs, parse)
  {
    AllCredentialsFrom(dirs, parse);
    forall c | c in LoadCredentials(Home(Entries(dirs)), parse).credentials
      ensures c.network == "mainnet" || c.network == "testnet"
    {
      var d, f :| d in dirs && IsScanned(d) && d.value.listing.Entries?
        && f in d.value.listing.entries && FileCredential(f, NetworkName(d.value), parse) == Some(c);
    }
  }

  /** The network of a loaded credential is one of the two scanned names. */
  lemma LoadedNetworkIsKnown(dirs: seq<Option<NetworkDir>>, parse: string -> Option<RawCredential>, c: NearCredential)
    requires c in LoadCredentials(Home(Entries(dirs)), parse).credentials
    ensures c.network == "mainnet" || c.network == "testnet"
  {
    LoadedCredentialsProvenance(dirs, parse);
  }

  /** The number of regular `.json` files the loader examines in one listing. */
  function JsonFileCount(files: seq<Option<KeyFile>>): nat {
    if files == [] then 0
    else
      var f := files[|files| - 1];
      JsonFileCount(files[..|files| - 1]) + if f.Some? && f.value.isFile && HasJsonExtension(f.value.name) then 1 else 0
  }

  /** The number of regular `.json` files in all scanned network directories. */
  function ScannedJsonFileCount(dirs: seq<Option<NetworkDir>>): nat {
    if dirs == [] then 0
    else
      var d := dirs[|dirs| - 1];
      ScannedJsonFileCount(dirs[..|dirs| - 1]) + if IsScanned(d) && d.value.listing.Entries? then JsonFileCount(d.value.listing.entries) else 0
  }

  lemma {:induction false} FilesCredentialsCount(files: seq<Option<KeyFile>>, network: string, parse: string -> Option<RawCredential>)
    ensures |FilesCredentials(files, network, parse)| <= JsonFileCount(files)
  {
    if files != [] {
      FilesCredentialsCount(files[..|files| - 1], network, parse);
    }
  }

  /** At most one credential per regular `.json` file examined. */
  lemma {:induction false} AllCredentialsCount(dirs: seq<Option<NetworkDir>>, parse: string -> Option<RawCredential>)
    ensures |AllCredentials(dirs, parse)| <= ScannedJsonFileCount(dirs)
  {
    if dirs != [] {
      AllCredentialsCount(dirs[..|dirs| - 1], parse);
      var d := dirs[|dirs| - 1];
      if IsScanned(d) && d.value.listing.Entries? {
        FilesCredentialsCount(d.value.listing.entries, NetworkName(d.value), parse);
      }
    }
  }

  /** Every regular `.json` file with a UTF-8 stem whose text parses yields its
      credential, so parsing failures skip only the file that failed. */
  lemma {:induction false} ParsedFilesAllLoaded(files: seq<Option<KeyFile>>, network: string, parse: string -> Option<RawCredential>, k: nat)
    requires k < |files| && FileCredential(files[k], network, parse).Some?
    ensures FileCredential(files[k], network, parse).value in FilesCredentials(files, network, parse)
  {
    if k < |files| - 1 {
      ParsedFilesAllLoaded(files[..|files| - 1], network, parse, k);
    }
  }

  /** Every file of a scanned network directory that yields a credential has
      it in the loader's response: one credential per parsed key file. */
  lemma {:induction false} ParsedFileLoaded(dirs: seq<Option<NetworkDir>>, parse: string -> Option<RawCredential>, i: nat, k: nat)
    requires i < |dirs| && IsScanned(dirs[i]) && dirs[i].value.listing.Entries?
    requires k < |dirs[i].value.listing.entries|
    requires FileCredential(dirs[i].value.listing.entries[k], NetworkName(dirs[i].value), parse).Some?
    ensures FileCredential(dirs[i].value.listing.entries[k], NetworkName(dirs[i].value), parse).value
      in LoadCredentials(Home(Entries(dirs)), parse).credentials
  {
    var last := |dirs| - 1;
    if i == last {
      ParsedFilesAllLoaded(dirs[i].value.listing.entries, NetworkName(dirs[i].value), parse, k);
    } else {
      var init := dirs[..last];
      assert init[i] == dirs[i];
      ParsedFileLoaded(init, parse, i, k);
    }
  }

  /** The message reported for each of the two errors. */
  lemma LoadErrorCases(home: Home, parse: string -> Option<RawCredential>)
    ensures home.NoHome? ==> LoadCredentials(home, parse).error == Some(NoHomeError)
    ensures home.Home? && home.credentialsDir.Unreadable? ==> LoadCredentials(home, parse).error == Some(UnreadableDirError)
  {
  }
}
