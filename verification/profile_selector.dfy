/** The profile selector's logic: each profile's option carries the key
    `${accountId}-${network}`; on change, the chosen key is split on '-' and
    the first profile whose account id and network equal the first two pieces
    is handed to `onProfileChange`. Rendering is not modelled. */
module ProfileSelector {
  import opened Wrappers
  import opened NearCredentials

  /** The option key and value of a profile. */
  function SelectionKey(p: NearCredential): (key: string)
    ensures |key| == |p.accountId| + 1 + |p.network|
    ensures key[..|p.accountId|] == p.accountId && key[|p.accountId|] == '-' && key[|p.accountId| + 1..] == p.network
  {
    p.accountId + "-" + p.network
  }

  /** The select's value: the current profile's key, or "" when there is none. */
  function SelectValue(current: Option<NearCredential>): (v: string)
    ensures current.None? ==> v == ""
    ensures current.Some? ==> v == Join([current.value.accountId, current.value.network], '-')
  {
    if current.Some? then SelectionKey(current.value) else ""
  }

  /** The label shown for a profile: `${accountId}.${network}`. */
  function DisplayName(p: NearCredential): (shown: string)
    ensures |shown| == |p.accountId| + 1 + |p.network|
    ensures shown[..|p.accountId|] == p.accountId && shown[|p.accountId|] == '.' && shown[|p.accountId| + 1..] == p.network
  {
    p.accountId + "." + p.network
  }

  // ---------------------------------------------------------------------------
  // String splitting (JavaScript's `split` with a one-character separator)

  /** The first occurrence of `c` in `s`. */
  function IndexOf(s: string, c: char): (k: Option<nat>)
    ensures k.Some? ==> k.value < |s| && s[k.value] == c && c !in s[..k.value]
    ensures k.None? ==> c !in s
  {
    if s == [] then None
    else if s[0] == c then Some(0)
    else match IndexOf(s[1..], c)
      case None => None
      case Some(k) =>
        assert s[..k + 1] == [s[0]] + s[1..][..k];
        Some(k + 1)
  }

  /** `s.split(sep)`: the pieces between separators, in order; a string with
      no separator is one piece. */
  function Split(s: string, sep: char): (pieces: seq<string>)
    ensures |pieces| >= 1
    ensures forall k :: 0 <= k < |pieces| ==> sep !in pieces[k]
    decreases |s|
  {
    match IndexOf(s, sep)
    case None => [s]
    case Some(k) => [s[..k]] + Split(s[k + 1..], sep)
  }

  /** `pieces.join(sep)`, the inverse of `Split`. */
  function Join(pieces: seq<string>, sep: char): string
    requires |pieces| >= 1
  {
    if |pieces| == 1 then pieces[0] else pieces[0] + [sep] + Join(pieces[1..], sep)
  }

  /** Joining the pieces gives back the string. */
  lemma {:induction false} JoinSplit(s: string, sep: char)
    ensures Join(Split(s, sep), sep) == s
    decreases |s|
  {
    var k := IndexOf(s, sep);
    if k.Some? {
      var i := k.value;
      var tail := Split(s[i + 1..], sep);
      var pieces := Split(s, sep);
      assert pieces == [s[..i]] + tail;
      assert pieces[1..] == tail;
      JoinSplit(s[i + 1..], sep);
      calc {
        Join(pieces, sep);
        s[..i] + [sep] + Join(tail, sep);
        s[..i] + [sep] + s[i + 1..];
        { assert s[i] == sep; }
        s;
      }
    }
  }

  /** The first separator of `head + [sep] + rest` is the one after `head`
      when `head` has none. */
  lemma {:induction false} IndexOfAfterPiece(head: string, sep: char, rest: string)
    requires sep !in head
    ensures IndexOf(head + [sep] + rest, sep) == Some(|head|)
  {
    var s := head + [sep] + rest;
    if head != [] {
      assert s[0] == head[0] && head[0] in head;
      assert s[1..] == head[1..] + [sep] + rest;
      assert sep !in head[1..] by {
        forall x | x in head[1..] ensures x in head { }
      }
      IndexOfAfterPiece(head[1..], sep, rest);
    }
  }

  /** Splitting a join of separator-free pieces gives back the pieces. */
  lemma {:induction false} SplitJoin(pieces: seq<string>, sep: char)
    requires |pieces| >= 1
    requires forall k :: 0 <= k < |pieces| ==> sep !in pieces[k]
    ensures Split(Join(pieces, sep), sep) == pieces
  {
    var s := Join(pieces, sep);
    if |pieces| == 1 {
      assert IndexOf(s, sep).None?;
    } else {
      var head := pieces[0];
      var rest := Join(pieces[1..], sep);
      assert s == head + [sep] + rest;
      IndexOfAfterPiece(head, sep, rest);
      assert s[..|head|] == head;
      assert s[|head| + 1..] == rest;
      SplitJoin(pieces[1..], sep);
      assert pieces == [head] + pieces[1..];
    }
  }

  // ---------------------------------------------------------------------------
  // Decoding a key and finding its profile

  /** The two fields destructured from the split key; `network` is None when
      the key holds no '-' (JavaScript's `undefined`). */
  datatype DecodedKey = DecodedKey(accountId: string, network: Option<string>)

  /** The first piece of a join is a prefix of it, followed by the
      separator when there are further pieces. */
  lemma JoinFirstPiece(pieces: seq<string>, sep: char)
    requires |pieces| >= 1
    ensures pieces[0] <= Join(pieces, sep)
    ensures |pieces| == 1 ==> Join(pieces, sep) == pieces[0]
    ensures |pieces| >= 2 ==> Join(pieces, sep)[|pieces[0]|] == sep && Join(pieces, sep)[|pieces[0]| + 1..] == Join(pieces[1..], sep)
  {
    if |pieces| >= 2 {
      var j := Join(pieces, sep);
      assert j == pieces[0] + ([sep] + Join(pieces[1..], sep));
    }
  }

  /** `const [accountId, network] = value.split('-')`: the account id is
      everything before the first '-' (the whole value when there is none),
      and the network, present only when there is a '-', is what follows it
      up to the next '-' or the end. */
  function DecodeKey(value: string): (d: DecodedKey)
    ensures '-' !in d.accountId && d.accountId <= value
    ensures |d.accountId| == |value| || value[|d.accountId|] == '-'
    ensures d.network.None? <==> '-' !in value
    ensures d.network.Some? ==>
      var rest := value[|d.accountId| + 1..];
      && '-' !in d.network.value && d.network.value <= rest
      && (|d.network.value| == |rest| || rest[|d.network.value|] == '-')
  {
    var pieces := Split(value, '-');
    JoinSplit(value, '-');
    JoinFirstPiece(pieces, '-');
    if |pieces| >= 2 then
      JoinFirstPiece(pieces[1..], '-');
      DecodedKey(pieces[0], Some(pieces[1]))
    else
      DecodedKey(pieces[0], None)
  }

  /** `p.accountId === accountId && p.network === network`. */
  predicate Matches(p: NearCredential, d: DecodedKey) {
    p.accountId == d.accountId && d.network == Some(p.network)
  }

  /** `Array.find`: the index of the first profile that matches. */
  function FindFirst(profiles: seq<NearCredential>, d: DecodedKey): (k: Option<nat>)
    ensures k.Some? ==> k.value < |profiles| && Matches(profiles[k.value], d)
    ensures k.Some? ==> forall i :: 0 <= i < k.value ==> !Matches(profiles[i], d)
    ensures k.None? ==> forall i :: 0 <= i < |profiles| ==> !Matches(profiles[i], d)
  {
    if profiles == [] then None
    else if Matches(profiles[0], d) then Some(0)
    else match FindFirst(profiles[1..], d)
      case None => None
      case Some(k) => Some(k + 1)
  }

  /** The select's `onChange` for the chosen value: the profile handed to
      `onProfileChange`, or None when it is not called. */
  function OnChange(value: string, profiles: seq<NearCredential>): (chosen: Option<NearCredential>)
    ensures chosen.None? <==> forall i :: 0 <= i < |profiles| ==> !Matches(profiles[i], DecodeKey(value))
    ensures chosen.Some? ==> exists k :: (0 <= k < |profiles| && profiles[k] == chosen.value
      && Matches(profiles[k], DecodeKey(value)) && forall i :: 0 <= i < k ==> !Matches(profiles[i], DecodeKey(value)))
  {
    match FindFirst(profiles, DecodeKey(value))
    case None => None
    case Some(k) => Some(profiles[k])
  }

  /** An account id and network free of '-' survive the key's round trip. */
  lemma KeyRoundTrip(p: NearCredential)
    requires '-' !in p.accountId && '-' !in p.network
    ensures DecodeKey(SelectionKey(p)) == DecodedKey(p.accountId, Some(p.network))
  {
    assert SelectionKey(p) == Join([p.accountId, p.network], '-');
    SplitJoin([p.accountId, p.network], '-');
  }

  /** Choosing such a profile's option hands over a profile with its account
      id and network: the first one in the list that has both. */
  lemma SelectingOwnKey(profiles: seq<NearCredential>, p: NearCredential)
    requires p in profiles
    requires '-' !in p.accountId && '-' !in p.network
    ensures OnChange(SelectionKey(p), profiles).Some?
    ensures var q := OnChange(SelectionKey(p), profiles).value;
      && q.accountId == p.accountId && q.network == p.network
      && exists i :: 0 <= i < |profiles| && profiles[i] == q &&
           forall j :: 0 <= j < i ==> profiles[j].accountId != p.accountId || profiles[j].network != p.network
  {
    KeyRoundTrip(p);
    var d := DecodeKey(SelectionKey(p));
    var i :| 0 <= i < |profiles| && profiles[i] == p;
    assert Matches(profiles[i], d);
    var k := FindFirst(profiles, d).value;
    assert forall j :: 0 <= j < k ==> !Matches(profiles[j], d);
  }

  /** The account id read back from the key of a profile whose account id
      holds a '-' is only the part before its first '-'. */
  lemma DashedAccountIdCut(p: NearCredential)
    requires '-' in p.accountId
    ensures IndexOf(p.accountId, '-').Some?
    ensures DecodeKey(SelectionKey(p)).accountId == p.accountId[..IndexOf(p.accountId, '-').value]
  {
    var key := SelectionKey(p);
    var d := DecodeKey(key);
    var k := IndexOf(p.accountId, '-').value;
    assert key[..|p.accountId|] == p.accountId;
    assert key[k] == '-';
    assert |d.accountId| <= k;
    assert forall i :: 0 <= i < k ==> key[i] == p.accountId[..k][i];
    assert |d.accountId| >= k;
    assert d.accountId == key[..k];
  }

  /** A profile whose account id holds a '-' is never handed over when its
      own option is chosen: whatever is selected, if anything, has another
      account id. */
  lemma DashedAccountNeverSelected(profiles: seq<NearCredential>, p: NearCredential)
    requires '-' in p.accountId
    ensures OnChange(SelectionKey(p), profiles).None? || OnChange(SelectionKey(p), profiles).value.accountId != p.accountId
  {
    DashedAccountIdCut(p);
  }

  /** A concrete case: the only profile, `my-app.testnet` on testnet, cannot
      be selected; choosing it calls nothing. */
  lemma DashedAccountExample()
    ensures var p := NearCredential("my-app.testnet", "ed25519:pub", "testnet", Some("ed25519:key"));
      OnChange(SelectionKey(p), [p]) == None
  {
    var p := NearCredential("my-app.testnet", "ed25519:pub", "testnet", Some("ed25519:key"));
    assert p.accountId[2] == '-';
    DashedAccountNeverSelected([p], p);
  }

  /** Worse than selecting nothing: a profile whose account id is another
      profile's account id and network followed by `-` and more (such as
      `a-testnet-b` next to `a`, both on testnet) hands over that other
      profile when it is listed first. */
  lemma DashedAccountPicksAnother(q: NearCredential, p: NearCredential, x: string)
    requires '-' !in q.accountId && '-' !in q.network && '-' !in x
    requires p.accountId == q.accountId + "-" + q.network + "-" + x && p.network == q.network
    ensures OnChange(SelectionKey(p), [q, p]) == Some(q)
  {
    var pieces := [q.accountId, q.network, x, q.network];
    assert pieces[1..][1..] == pieces[2..] && pieces[2..][1..] == pieces[3..];
    assert Join(pieces[3..], '-') == q.network;
    assert Join(pieces[2..], '-') == x + "-" + q.network;
    assert Join(pieces[1..], '-') == q.network + "-" + (x + "-" + q.network);
    assert Join(pieces, '-') == q.accountId + "-" + (q.network + "-" + (x + "-" + q.network));
    assert SelectionKey(p) == Join(pieces, '-');
    SplitJoin(pieces, '-');
    assert Matches(q, DecodeKey(SelectionKey(p)));
  }

  // ---------------------------------------------------------------------------
  // Decoding at the last '-'

  /** The last occurrence of `c` in `s`. */
  function LastIndexOf(s: string, c: char): (k: Option<nat>)
    ensures k.Some? ==> k.value < |s| && s[k.value] == c && c !in s[k.value + 1..]
    ensures k.None? ==> c !in s
  {
    if s == [] then None
    else if s[|s| - 1] == c then Some(|s| - 1)
    else
      var k := LastIndexOf(s[..|s| - 1], c);
      if k.Some? then
        assert s[k.value + 1..] == s[..|s| - 1][k.value + 1..] + [s[|s| - 1]];
        k
      else
        assert s == s[..|s| - 1] + [s[|s| - 1]];
        k
  }

  /** Decoding that splits at the last '-', so that an account id may hold
      '-' as long as the network name does not. */
  function DecodeKeyAtLastDash(value: string): (d: DecodedKey)
    ensures d.network.Some? ==> '-' !in d.network.value
    ensures d.network.Some? ==> value == d.accountId + "-" + d.network.value
    ensures d.network.None? <==> '-' !in value
  {
    match LastIndexOf(value, '-')
    case None => DecodedKey(value, None)
    case Some(k) =>
      assert value == value[..k] + "-" + value[k + 1..];
      DecodedKey(value[..k], Some(value[k + 1..]))
  }

  /** `onChange` with the last-dash decoding. */
  function OnChangeAtLastDash(value: string, profiles: seq<NearCredential>): (chosen: Option<NearCredential>)
    ensures chosen.None? <==> forall i :: 0 <= i < |profiles| ==> !Matches(profiles[i], DecodeKeyAtLastDash(value))
    ensures chosen.Some? ==> exists k :: (0 <= k < |profiles| && profiles[k] == chosen.value
      && Matches(profiles[k], DecodeKeyAtLastDash(value)) && forall i :: 0 <= i < k ==> !Matches(profiles[i], DecodeKeyAtLastDash(value)))
  {
    match FindFirst(profiles, DecodeKeyAtLastDash(value))
    case None => None
    case Some(k) => Some(profiles[k])
  }

  /** The last separator of `head + [sep] + tail` is the one before `tail`
      when `tail` has none. */
  lemma {:induction false} LastIndexOfBeforePiece(head: string, sep: char, tail: string)
    requires sep !in tail
    ensures LastIndexOf(head + [sep] + tail, sep) == Some(|head|)
  {
    var s := head + [sep] + tail;
    if tail != [] {
      var last := tail[|tail| - 1];
      assert last in tail;
      assert s[..|s| - 1] == head + [sep] + tail[..|tail| - 1];
      assert sep !in tail[..|tail| - 1] by {
        forall x | x in tail[..|tail| - 1] ensures x in tail { }
      }
      LastIndexOfBeforePiece(head, sep, tail[..|tail| - 1]);
    }
  }

  /** With the last-dash decoding every key reads back as its account id and
      network, whatever the account id holds. */
  lemma KeyRoundTripAtLastDash(p: NearCredential)
    requires '-' !in p.network
    ensures DecodeKeyAtLastDash(SelectionKey(p)) == DecodedKey(p.accountId, Some(p.network))
  {
    var key := SelectionKey(p);
    assert key == p.accountId + ['-'] + p.network;
    LastIndexOfBeforePiece(p.accountId, '-', p.network);
    assert key[..|p.accountId|] == p.accountId;
    assert key[|p.accountId| + 1..] == p.network;
  }

  /** Every credential the loader returns can be selected with the last-dash
      decoding: choosing its option hands over a profile with its account id
      and network. */
  lemma LoadedProfilesSelectable(dirs: seq<Option<NetworkDir>>, parse: string -> Option<RawCredential>, p: NearCredential)
    requires p in LoadCredentials(Home(Entries(dirs)), parse).credentials
    ensures var profiles := LoadCredentials(Home(Entries(dirs)), parse).credentials;
      && OnChangeAtLastDash(SelectionKey(p), profiles).Some?
      && OnChangeAtLastDash(SelectionKey(p), profiles).value.accountId == p.accountId
      && OnChangeAtLastDash(SelectionKey(p), profiles).value.network == p.network
  {
    var profiles := LoadCredentials(Home(Entries(dirs)), parse).credentials;
    LoadedNetworkIsKnown(dirs, parse, p);
    assert '-' !in p.network;
    KeyRoundTripAtLastDash(p);
    var i :| 0 <= i < |profiles| && profiles[i] == p;
    assert Matches(profiles[i], DecodeKeyAtLastDash(SelectionKey(p)));
  }
}
