/**
 * Persistence of a file panel's location: a root-first stack of VFS host
 * descriptors plus a path, its JSON form, the footprint string used for
 * hashing and the human-readable path.
 */
module PanelPersistency {
  import opened Base

  // ---------------------------------------------------------------------------
  // A JSON document (the subset of rapidjson values the codec touches)
  // ---------------------------------------------------------------------------

  datatype Json =
    | JNull
    | JBool(boolean: bool)
    | JNumber(number: int)
    | JString(str: string)
    | JArray(items: seq<Json>)
    | JObject(members: seq<Member>)

  datatype Member = Member(key: string, value: Json)

  /** Member lookup as rapidjson's FindMember does it: the first member with the key wins. */
  function Find(members: seq<Member>, key: string): (r: Option<Json>)
    ensures r.None? <==> forall i :: 0 <= i < |members| ==> members[i].key != key
    ensures r.Some? ==> exists i :: 0 <= i < |members| && members[i].key == key && members[i].value == r.value &&
                                    forall j :: 0 <= j < i ==> members[j].key != key
  {
    if members == [] then None
    else if members[0].key == key then Some(members[0].value)
    else Find(members[1..], key)
  }

  /** HasMember: false on anything that is not an object. */
  predicate HasMember(json: Json, key: string)
  {
    json.JObject? && Find(json.members, key).Some?
  }

  function MemberAt(json: Json, key: string): Json
    requires HasMember(json, key)
  {
    Find(json.members, key).value
  }

  /** The `has_string` test of the decoder: the member exists and holds a string. */
  predicate HasString(json: Json, key: string)
  {
    HasMember(json, key) && MemberAt(json, key).JString?
  }

  /**
   * A stored string as GetString() hands it to a std::string or string_view:
   * the characters before the first NUL.
   */
  function CStr(s: string): (r: string)
    ensures '\0' !in r
    ensures |r| <= |s| && r == s[..|r|]
    ensures |r| < |s| ==> s[|r|] == '\0'
    ensures r == s <==> '\0' !in s
  {
    if s == [] || s[0] == '\0' then []
    else
      var rest := CStr(s[1..]);
      assert [s[0]] + rest == s[..|rest| + 1];
      [s[0]] + rest
  }

  /** A string member as the decoder reads it: cut at the first NUL. */
  function StringAt(json: Json, key: string): string
    requires HasString(json, key)
  {
    CStr(MemberAt(json, key).str)
  }

  // ---------------------------------------------------------------------------
  // Keys and VFS tags
  // ---------------------------------------------------------------------------

  const StackHostsKey := "hosts_v1"
  const StackPathKey := "path"
  const HostInfoTypeKey := "type"
  const HostInfoTypeNetworkValue := "network"
  const HostInfoJunctionKey := "junction"
  const HostInfoUuidKey := "uuid"

  /** The hosts' FSTag values; only their distinctness matters to the codec. */
  const NativeTag := "native"
  const PSTag := "psfs"
  const XAttrTag := "xattr"
  const ArchiveTag := "arc_libarchive"
  const UnRARTag := "arc_unrar"
  const FTPTag := "net_ftp"
  const SFTPTag := "net_sftp"
  const DropboxTag := "net_dropbox"
  const UnknownVfsTag := "<unknown_vfs>"

  /** A connection uuid, held as its canonical text (uuid <-> text is a bijection). */
  datatype Uuid = Uuid(text: string)

  // ---------------------------------------------------------------------------
  // Locations
  // ---------------------------------------------------------------------------

  datatype Host =
    | Native
    | PSFS
    | XAttr(junction: string)
    | Network(connection: Uuid)
    | ArcLA(junction: string)
    | ArcUnRAR(junction: string)

  datatype Location = Location(hosts: seq<Host>, path: string)
  {
    /** A native location carries no hosts at all: the path alone is enough. */
    predicate IsNative()
    {
      hosts == []
    }

    predicate IsNetwork()
    {
      hosts != [] && hosts[0].Network?
    }
  }

  lemma NativeIsNotNetwork(loc: Location)
    ensures loc.IsNative() ==> !loc.IsNetwork()
    ensures loc.IsNetwork() ==> loc.hosts[0].Network? && !loc.IsNative()
  {
  }

  /**
   * The ordering rules the decoder enforces on host i: an xattr or
   * libarchive host needs a host below it, an unrar host needs a native host
   * directly below it.
   */
  predicate FitsAt(hosts: seq<Host>, i: int)
    requires 0 <= i < |hosts|
  {
    match hosts[i]
    case XAttr(_) => i >= 1
    case ArcLA(_) => i >= 1
    case ArcUnRAR(_) => i >= 1 && hosts[i - 1].Native?
    case _ => true
  }

  predicate WellOrdered(hosts: seq<Host>)
  {
    forall i :: 0 <= i < |hosts| ==> FitsAt(hosts, i)
  }

  /** No string a host carries holds a NUL. */
  predicate HostNulFree(h: Host)
  {
    match h
    case XAttr(j) => '\0' !in j
    case Network(u) => '\0' !in u.text
    case ArcLA(j) => '\0' !in j
    case ArcUnRAR(j) => '\0' !in j
    case _ => true
  }

  predicate HostsNulFree(hosts: seq<Host>)
  {
    forall i :: 0 <= i < |hosts| ==> HostNulFree(hosts[i])
  }

  predicate NulFree(loc: Location)
  {
    '\0' !in loc.path && HostsNulFree(loc.hosts)
  }

  /** A host as it reads back from JSON: each of its strings cut at the first NUL. */
  function CutHost(h: Host): (r: Host)
    ensures HostNulFree(r)
    ensures r == h <==> HostNulFree(h)
    ensures r.Native? == h.Native? && r.PSFS? == h.PSFS? && r.XAttr? == h.XAttr? &&
            r.Network? == h.Network? && r.ArcLA? == h.ArcLA? && r.ArcUnRAR? == h.ArcUnRAR?
  {
    match h
    case XAttr(j) => XAttr(CStr(j))
    case Network(u) => Network(Uuid(CStr(u.text)))
    case ArcLA(j) => ArcLA(CStr(j))
    case ArcUnRAR(j) => ArcUnRAR(CStr(j))
    case _ => h
  }

  function CutHosts(hosts: seq<Host>): (r: seq<Host>)
    ensures |r| == |hosts| && forall i :: 0 <= i < |hosts| ==> r[i] == CutHost(hosts[i])
  {
    seq(|hosts|, i requires 0 <= i < |hosts| => CutHost(hosts[i]))
  }

  /** A location as it reads back from JSON: the path and every host string cut at the first NUL. */
  function CutLocation(loc: Location): (r: Location)
    ensures NulFree(r)
    ensures r == loc <==> NulFree(loc)
    ensures |r.hosts| == |loc.hosts|
  {
    var hosts := CutHosts(loc.hosts);
    assert HostsNulFree(loc.hosts) ==> hosts == loc.hosts;
    Location(hosts, CStr(loc.path))
  }

  /** Cutting the strings keeps every host's kind, so the ordering rules see no difference. */
  lemma CutKeepsOrder(hosts: seq<Host>)
    ensures WellOrdered(CutHosts(hosts)) <==> WellOrdered(hosts)
  {
    forall i | 0 <= i < |hosts|
      ensures FitsAt(CutHosts(hosts), i) == FitsAt(hosts, i)
    {
      assert CutHosts(hosts)[i] == CutHost(hosts[i]);
      if i >= 1 {
        assert CutHosts(hosts)[i - 1] == CutHost(hosts[i - 1]);
      }
    }
  }

  // ---------------------------------------------------------------------------
  // Location -> JSON
  // ---------------------------------------------------------------------------

  /** The "type" value each kind of host is stored under. */
  function HostTypeValue(host: Host): string
  {
    match host
    case Native => NativeTag
    case PSFS => PSTag
    case XAttr(_) => XAttrTag
    case Network(_) => HostInfoTypeNetworkValue
    case ArcLA(_) => ArchiveTag
    case ArcUnRAR(_) => UnRARTag
  }

  /** The stored tags survive the decoder's NUL cut. */
  lemma HostTypeValueNulFree(a: Host)
    ensures CStr(HostTypeValue(a)) == HostTypeValue(a)
  {
    assert '\0' !in HostTypeValue(a);
  }

  /** The decoder tells the stored tags apart. */
  lemma HostTypeValueDistinct(a: Host, b: Host)
    ensures HostTypeValue(a) == HostTypeValue(b) <==>
              (a.Native? == b.Native? && a.PSFS? == b.PSFS? && a.XAttr? == b.XAttr? &&
               a.Network? == b.Network? && a.ArcLA? == b.ArcLA?)
  {
  }

  /** The JSON object describing one host. */
  function EncodeAny(host: Host): (r: Json)
    ensures HasString(r, HostInfoTypeKey) && MemberAt(r, HostInfoTypeKey).str == HostTypeValue(host)
    ensures host.Network? ==> HasString(r, HostInfoUuidKey) && MemberAt(r, HostInfoUuidKey).str == host.connection.text
    ensures (host.XAttr? || host.ArcLA? || host.ArcUnRAR?) ==>
              HasString(r, HostInfoJunctionKey) && MemberAt(r, HostInfoJunctionKey).str == host.junction
  {
    match host
    case Native => JObject([Member(HostInfoTypeKey, JString(NativeTag))])
    case PSFS => JObject([Member(HostInfoTypeKey, JString(PSTag))])
    case XAttr(j) => JObject([Member(HostInfoTypeKey, JString(XAttrTag)), Member(HostInfoJunctionKey, JString(j))])
    case Network(u) => JObject([Member(HostInfoTypeKey, JString(HostInfoTypeNetworkValue)), Member(HostInfoUuidKey, JString(u.text))])
    case ArcLA(j) => JObject([Member(HostInfoTypeKey, JString(ArchiveTag)), Member(HostInfoJunctionKey, JString(j))])
    case ArcUnRAR(j) => JObject([Member(HostInfoTypeKey, JString(UnRARTag)), Member(HostInfoJunctionKey, JString(j))])
  }

  function EncodeHosts(hosts: seq<Host>): (r: seq<Json>)
    ensures |r| == |hosts|
    ensures forall i :: 0 <= i < |hosts| ==> r[i] == EncodeAny(hosts[i])
  {
    seq(|hosts|, i requires 0 <= i < |hosts| => EncodeAny(hosts[i]))
  }

  /** The JSON form of a location: "hosts_v1" only when there are hosts, then "path". */
  function LocationJson(loc: Location): Json
  {
    var hostMembers := if loc.hosts == [] then [] else [Member(StackHostsKey, JArray(EncodeHosts(loc.hosts)))];
    JObject(hostMembers + [Member(StackPathKey, JString(loc.path))])
  }

  /** The document always carries the path, and carries "hosts_v1" exactly when there are hosts. */
  lemma LocationJsonShape(loc: Location)
    ensures HasString(LocationJson(loc), StackPathKey)
    ensures MemberAt(LocationJson(loc), StackPathKey) == JString(loc.path)
    ensures HasMember(LocationJson(loc), StackHostsKey) <==> loc.hosts != []
    ensures loc.hosts != [] ==> MemberAt(LocationJson(loc), StackHostsKey) == JArray(EncodeHosts(loc.hosts))
  {
    var json := LocationJson(loc);
    assert StackHostsKey != StackPathKey;
    if loc.hosts == [] {
      assert json.members == [Member(StackPathKey, JString(loc.path))];
    } else {
      assert json.members[1] == Member(StackPathKey, JString(loc.path));
    }
  }

  method LocationToJSON(loc: Location) returns (json: Json)
    ensures json == LocationJson(loc)
  {
    var jsonHosts: seq<Json> := [];
    var i := 0;
    while i < |loc.hosts|
      invariant 0 <= i <= |loc.hosts|
      invariant jsonHosts == EncodeHosts(loc.hosts[..i])
    {
      var v := EncodeAny(loc.hosts[i]);
      jsonHosts := jsonHosts + [v];
      i := i + 1;
    }
    assert loc.hosts[..i] == loc.hosts;
    var members: seq<Member> := [];
    if jsonHosts != [] {
      members := members + [Member(StackHostsKey, JArray(jsonHosts))];
    }
    members := members + [Member(StackPathKey, JString(loc.path))];
    json := JObject(members);
  }

  // ---------------------------------------------------------------------------
  // JSON -> Location
  // ---------------------------------------------------------------------------

  /** What the decoder does with one host entry, given the hosts decoded so far. */
  datatype Step = Reject | Skip | Append(host: Host)

  function DecodeEntry(entry: Json, decoded: seq<Host>): (r: Step)
    ensures r.Append? ==> FitsAt(decoded + [r.host], |decoded|) && HostNulFree(r.host)
  {
    if !HasString(entry, HostInfoTypeKey) then Reject
    else
      var tag := StringAt(entry, HostInfoTypeKey);
      if tag == NativeTag then Append(Native)
      else if tag == PSTag then Append(PSFS)
      else if tag == XAttrTag then
        if !HasString(entry, HostInfoJunctionKey) then Reject
        else if |decoded| < 1 then Reject
        else Append(XAttr(StringAt(entry, HostInfoJunctionKey)))
      else if tag == HostInfoTypeNetworkValue then
        if !HasString(entry, HostInfoUuidKey) then Reject
        else Append(Network(Uuid(StringAt(entry, HostInfoUuidKey))))
      else if tag == ArchiveTag then
        if !HasString(entry, HostInfoJunctionKey) then Reject
        else if |decoded| < 1 then Reject
        else Append(ArcLA(StringAt(entry, HostInfoJunctionKey)))
      else if tag == UnRARTag then
        if !HasString(entry, HostInfoJunctionKey) then Reject
        else if |decoded| < 1 || !decoded[|decoded| - 1].Native? then Reject
        else Append(ArcUnRAR(StringAt(entry, HostInfoJunctionKey)))
      else Skip
  }

  lemma FitsAtPrefix(hosts: seq<Host>, extra: seq<Host>, i: int)
    requires 0 <= i < |hosts|
    ensures FitsAt(hosts + extra, i) == FitsAt(hosts, i)
  {
    assert (hosts + extra)[i] == hosts[i];
    if i >= 1 {
      assert (hosts + extra)[i - 1] == hosts[i - 1];
    }
  }

  /** Appending a host that fits keeps a well-ordered stack well ordered. */
  lemma {:induction false} WellOrderedAppend(hosts: seq<Host>, h: Host)
    ensures WellOrdered(hosts) && FitsAt(hosts + [h], |hosts|) ==> WellOrdered(hosts + [h])
  {
    if WellOrdered(hosts) && FitsAt(hosts + [h], |hosts|) {
      forall i | 0 <= i < |hosts + [h]|
        ensures FitsAt(hosts + [h], i)
      {
        if i < |hosts| {
          FitsAtPrefix(hosts, [h], i);
        }
      }
    }
  }

  /**
   * Decodes the host entries after `decoded`: None as soon as one entry is
   * rejected. What it returns extends `decoded` and obeys the ordering rules.
   */
  function DecodeHosts(entries: seq<Json>, decoded: seq<Host>): (r: Option<seq<Host>>)
    ensures r.Some? ==> StartsWith(r.value, decoded)
    ensures r.Some? && WellOrdered(decoded) ==> WellOrdered(r.value)
    ensures r.Some? && HostsNulFree(decoded) ==> HostsNulFree(r.value)
    decreases |entries|
  {
    if entries == [] then Some(decoded)
    else
      match DecodeEntry(entries[0], decoded)
      case Reject => None
      case Skip => DecodeHosts(entries[1..], decoded)
      case Append(h) =>
        WellOrderedAppend(decoded, h);
        assert HostsNulFree(decoded) ==> HostsNulFree(decoded + [h]);
        var r := DecodeHosts(entries[1..], decoded + [h]);
        assert r.Some? ==> r.value[..|decoded|] == (decoded + [h])[..|decoded|];
        r
  }

  /** The whole document: object with a string "path", then the optional host array. */
  function DecodeLocation(json: Json): (r: Option<Location>)
    ensures r.Some? <==> json.JObject? && HasString(json, StackPathKey) &&
                         (HasMember(json, StackHostsKey) && MemberAt(json, StackHostsKey).JArray? ==>
                            DecodeHosts(MemberAt(json, StackHostsKey).items, []).Some?)
    ensures r.Some? ==> r.value.path == StringAt(json, StackPathKey) && WellOrdered(r.value.hosts) && NulFree(r.value)
    ensures r.Some? && !HasMember(json, StackHostsKey) ==> r.value.IsNative()
  {
    if !json.JObject? || !HasString(json, StackPathKey) then None
    else
      var path := StringAt(json, StackPathKey);
      if !HasMember(json, StackHostsKey) then Some(Location([], path))
      else if MemberAt(json, StackHostsKey).JArray? then
        match DecodeHosts(MemberAt(json, StackHostsKey).items, [])
        case None => None
        case Some(hosts) => Some(Location(hosts, path))
      else Some(Location([], path))
  }

  method JSONToLocation(json: Json) returns (r: Option<Location>)
    ensures r == DecodeLocation(json)
  {
    if !json.JObject? || !HasString(json, StackPathKey) {
      return None;
    }
    var path := StringAt(json, StackPathKey);
    if !HasMember(json, StackHostsKey) {
      return Some(Location([], path));
    }
    var hosts: seq<Host> := [];
    if MemberAt(json, StackHostsKey).JArray? {
      var entries := MemberAt(json, StackHostsKey).items;
      var i := 0;
      while i < |entries|
        invariant 0 <= i <= |entries|
        invariant DecodeHosts(entries, []) == DecodeHosts(entries[i..], hosts)
      {
        var h := entries[i];
        DecodeHostsStep(entries, i, hosts);
        if !HasString(h, HostInfoTypeKey) {
          return None;
        }
        var tag := StringAt(h, HostInfoTypeKey);
        if tag == NativeTag {
          hosts := hosts + [Native];
        } else if tag == PSTag {
          hosts := hosts + [PSFS];
        } else if tag == XAttrTag {
          if !HasString(h, HostInfoJunctionKey) {
            return None;
          }
          if |hosts| < 1 {
            return None;
          }
          var host := XAttr(StringAt(h, HostInfoJunctionKey));
          hosts := hosts + [host];
        } else if tag == HostInfoTypeNetworkValue {
          if !HasString(h, HostInfoUuidKey) {
            return None;
          }
          var host := Network(Uuid(StringAt(h, HostInfoUuidKey)));
          hosts := hosts + [host];
        } else if tag == ArchiveTag {
          if !HasString(h, HostInfoJunctionKey) {
            return None;
          }
          if |hosts| < 1 {
            return None;
          }
          var host := ArcLA(StringAt(h, HostInfoJunctionKey));
          hosts := hosts + [host];
        } else if tag == UnRARTag {
          if !HasString(h, HostInfoJunctionKey) {
            return None;
          }
          if |hosts| < 1 || !hosts[|hosts| - 1].Native? {
            return None;
          }
          var host := ArcUnRAR(StringAt(h, HostInfoJunctionKey));
          hosts := hosts + [host];
        }
        i := i + 1;
      }
    }
    return Some(Location(hosts, path));
  }

  lemma DecodeHostsStep(entries: seq<Json>, i: int, decoded: seq<Host>)
    requires 0 <= i < |entries|
    ensures DecodeHosts(entries[i..], decoded) ==
              match DecodeEntry(entries[i], decoded)
              case Reject => None
              case Skip => DecodeHosts(entries[i + 1..], decoded)
              case Append(h) => DecodeHosts(entries[i + 1..], decoded + [h])
  {
    assert entries[i..][0] == entries[i] && entries[i..][1..] == entries[i + 1..];
  }

  /** Decoding a concatenation decodes the first part, then carries on from there. */
  lemma {:induction false} DecodeHostsConcat(a: seq<Json>, b: seq<Json>, decoded: seq<Host>)
    ensures DecodeHosts(a + b, decoded) ==
              match DecodeHosts(a, decoded)
              case None => None
              case Some(mid) => DecodeHosts(b, mid)
    decreases |a|
  {
    if a != [] {
      assert (a + b)[0] == a[0] && (a + b)[1..] == a[1..] + b;
      match DecodeEntry(a[0], decoded)
      case Reject =>
      case Skip => DecodeHostsConcat(a[1..], b, decoded);
      case Append(h) =>
        WellOrderedAppend(decoded, h);
        DecodeHostsConcat(a[1..], b, decoded + [h]);
    } else {
      assert a + b == b;
    }
  }

  /** An entry without a string "type" anywhere in the array makes the whole decode fail. */
  lemma {:induction false} UntypedEntryRejects(entries: seq<Json>, decoded: seq<Host>, k: int)
    requires 0 <= k < |entries| && !HasString(entries[k], HostInfoTypeKey)
    ensures DecodeHosts(entries, decoded) == None
    decreases k
  {
    if k > 0 {
      assert entries[1..][k - 1] == entries[k];
      match DecodeEntry(entries[0], decoded)
      case Reject =>
      case Skip => UntypedEntryRejects(entries[1..], decoded, k - 1);
      case Append(h) =>
        WellOrderedAppend(decoded, h);
        UntypedEntryRejects(entries[1..], decoded + [h], k - 1);
    }
  }

  predicate KnownTag(tag: string)
  {
    tag == NativeTag || tag == PSTag || tag == XAttrTag || tag == HostInfoTypeNetworkValue ||
    tag == ArchiveTag || tag == UnRARTag
  }

  /** An entry whose "type" is a string the decoder does not know is dropped, wherever it sits. */
  lemma UnknownEntrySkipped(before: seq<Json>, entry: Json, after: seq<Json>)
    requires HasString(entry, HostInfoTypeKey) && !KnownTag(StringAt(entry, HostInfoTypeKey))
    ensures DecodeHosts(before + [entry] + after, []) == DecodeHosts(before + after, [])
  {
    DecodeHostsConcat(before, [entry] + after, []);
    DecodeHostsConcat(before, after, []);
    assert before + [entry] + after == before + ([entry] + after);
    match DecodeHosts(before, [])
    case None =>
    case Some(mid) =>
      assert ([entry] + after)[0] == entry && ([entry] + after)[1..] == after;
  }

  /**
   * Decoding a freshly encoded host gives that host back, its strings cut at
   * the first NUL, whenever it fits after `decoded`.
   */
  lemma DecodeEncodedEntry(h: Host, decoded: seq<Host>)
    requires FitsAt(decoded + [h], |decoded|)
    ensures DecodeEntry(EncodeAny(h), decoded) == Append(CutHost(h))
    ensures HostNulFree(h) ==> DecodeEntry(EncodeAny(h), decoded) == Append(h)
  {
    var e := EncodeAny(h);
    HostTypeValueNulFree(h);
    assert StringAt(e, HostInfoTypeKey) == HostTypeValue(h);
    if h.ArcUnRAR? {
      assert (decoded + [h])[|decoded| - 1] == decoded[|decoded| - 1];
    }
  }

  lemma WellOrderedPrefix(hosts: seq<Host>, extra: seq<Host>)
    requires WellOrdered(hosts + extra)
    ensures WellOrdered(hosts)
  {
    forall i | 0 <= i < |hosts|
      ensures FitsAt(hosts, i)
    {
      FitsAtPrefix(hosts, extra, i);
    }
  }

  lemma FitsLastCut(decoded: seq<Host>, h: Host)
    ensures FitsAt(decoded + [CutHost(h)], |decoded|) == FitsAt(decoded + [h], |decoded|)
  {
    assert (decoded + [h])[|decoded|] == h && (decoded + [CutHost(h)])[|decoded|] == CutHost(h);
    if |decoded| >= 1 {
      assert (decoded + [h])[|decoded| - 1] == (decoded + [CutHost(h)])[|decoded| - 1];
    }
  }

  /** The decoder's step over the first of a run of encoded hosts. */
  lemma DecodeEncodedStep(hosts: seq<Host>, decoded: seq<Host>)
    requires hosts != [] && DecodeEntry(EncodeAny(hosts[0]), decoded) == Append(CutHost(hosts[0]))
    ensures DecodeHosts(EncodeHosts(hosts), decoded) ==
              DecodeHosts(EncodeHosts(hosts[1..]), decoded + [CutHost(hosts[0])])
  {
    assert EncodeHosts(hosts)[0] == EncodeAny(hosts[0]);
    assert EncodeHosts(hosts)[1..] == EncodeHosts(hosts[1..]);
  }

  /**
   * Encoding hosts and decoding them after `decoded` gives them back, their
   * strings cut at the first NUL, whenever the result obeys the ordering rules.
   */
  lemma {:induction false} DecodeEncodedHosts(hosts: seq<Host>, decoded: seq<Host>)
    requires WellOrdered(decoded + CutHosts(hosts))
    ensures WellOrdered(decoded)
    ensures DecodeHosts(EncodeHosts(hosts), decoded) == Some(decoded + CutHosts(hosts))
    decreases |hosts|
  {
    var cut := CutHosts(hosts);
    WellOrderedPrefix(decoded, cut);
    if hosts == [] {
      assert decoded + cut == decoded;
    } else {
      var h := hosts[0];
      var next := decoded + [CutHost(h)];
      assert cut[1..] == CutHosts(hosts[1..]);
      assert decoded + cut == next + CutHosts(hosts[1..]);
      FitsAtPrefix(next, CutHosts(hosts[1..]), |decoded|);
      FitsLastCut(decoded, h);
      DecodeEncodedEntry(h, decoded);
      DecodeEncodedStep(hosts, decoded);
      DecodeEncodedHosts(hosts[1..], next);
    }
  }

  /**
   * Round trip: a location whose hosts obey the decoder's ordering rules
   * comes back from its JSON form with every string cut at its first NUL,
   * and so unchanged when none of its strings holds a NUL.
   */
  lemma JsonRoundTrip(loc: Location)
    requires WellOrdered(loc.hosts)
    ensures DecodeLocation(LocationJson(loc)) == Some(CutLocation(loc))
    ensures NulFree(loc) ==> DecodeLocation(LocationJson(loc)) == Some(loc)
  {
    LocationJsonShape(loc);
    if loc.hosts != [] {
      CutKeepsOrder(loc.hosts);
      assert [] + CutHosts(loc.hosts) == CutHosts(loc.hosts);
      DecodeEncodedHosts(loc.hosts, []);
    }
  }

  /**
   * The converse: every decoded location is well ordered and free of NULs,
   * so it comes back from its JSON form unchanged.
   */
  lemma DecodedIsWellOrdered(json: Json)
    requires DecodeLocation(json).Some?
    ensures WellOrdered(DecodeLocation(json).value.hosts) && NulFree(DecodeLocation(json).value)
    ensures DecodeLocation(LocationJson(DecodeLocation(json).value)) == DecodeLocation(json)
  {
    JsonRoundTrip(DecodeLocation(json).value);
  }

  /** The path stored in a state, or "" when there is none. */
  function GetPathFromState(state: Json): (r: string)
    ensures HasString(state, StackPathKey) ==> r == StringAt(state, StackPathKey)
    ensures !HasString(state, StackPathKey) ==> r == ""
  {
    if state.JObject? && HasMember(state, StackPathKey) && MemberAt(state, StackPathKey).JString? then
      StringAt(state, StackPathKey)
    else ""
  }

  /** The path read directly agrees with the decoder and, up to the first NUL, with the encoder. */
  lemma PathFromStateAgrees(state: Json, loc: Location)
    ensures DecodeLocation(state).Some? ==> GetPathFromState(state) == DecodeLocation(state).value.path
    ensures GetPathFromState(LocationJson(loc)) == CStr(loc.path)
    ensures '\0' !in loc.path ==> GetPathFromState(LocationJson(loc)) == loc.path
  {
    LocationJsonShape(loc);
  }
  // ---------------------------------------------------------------------------
  // Live hosts -> Location
  // ---------------------------------------------------------------------------

  /**
   * A live VFS host as far as encoding is concerned: its tag, junction path,
   * verbose junction, the uuid of the network connection it was opened from
   * (when the connections manager knows one) and its parent.
   */
  datatype VfsHost = VfsHost(tag: string, junctionPath: string, verboseJunction: string,
                             connection: Option<Uuid>, parent: Option<VfsHost>)

  predicate IsNativeFS(host: VfsHost)
  {
    host.tag == NativeTag
  }

  predicate IsNetworkVFS(host: VfsHost)
  {
    host.tag == FTPTag || host.tag == SFTPTag || host.tag == DropboxTag
  }

  /** The descriptor of one live host; None for unknown tags and for orphaned network hosts. */
  function EncodeState(host: VfsHost): (r: Option<Host>)
    ensures r.Some? && r.value.Network? <==> IsNetworkVFS(host) && host.connection.Some?
    ensures r.Some? && r.value.Network? ==> r.value.connection == host.connection.value
    ensures r.Some? && (r.value.XAttr? || r.value.ArcLA? || r.value.ArcUnRAR?) ==> r.value.junction == host.junctionPath
    ensures r.Some? <==> (host.tag in {NativeTag, PSTag, XAttrTag, ArchiveTag, UnRARTag} ||
                         (IsNetworkVFS(host) && host.connection.Some?))
  {
    if host.tag == NativeTag then Some(Native)
    else if host.tag == PSTag then Some(PSFS)
    else if host.tag == XAttrTag then Some(XAttr(host.junctionPath))
    else if IsNetworkVFS(host) then
      if host.connection.Some? then Some(Network(host.connection.value)) else None
    else if host.tag == ArchiveTag then Some(ArcLA(host.junctionPath))
    else if host.tag == UnRARTag then Some(ArcUnRAR(host.junctionPath))
    else None
  }

  /** The host and its ancestors, leaf first. */
  function Chain(host: VfsHost): seq<VfsHost>
    decreases host
  {
    [host] + ChainFrom(host.parent)
  }

  function ChainFrom(host: Option<VfsHost>): seq<VfsHost>
    decreases host
  {
    match host
    case None => []
    case Some(h) => Chain(h)
  }

  function Reverse<T>(s: seq<T>): (r: seq<T>)
    ensures |r| == |s|
    ensures forall i :: 0 <= i < |s| ==> r[i] == s[|s| - 1 - i]
  {
    if s == [] then [] else Reverse(s[1..]) + [s[0]]
  }

  /** Encodes hosts in order; None when any of them cannot be encoded. */
  function EncodeChain(hosts: seq<VfsHost>): (r: Option<seq<Host>>)
    ensures r.Some? <==> forall i :: 0 <= i < |hosts| ==> EncodeState(hosts[i]).Some?
    ensures r.Some? ==> |r.value| == |hosts| &&
                        forall i :: 0 <= i < |hosts| ==> r.value[i] == EncodeState(hosts[i]).value
    decreases |hosts|
  {
    if hosts == [] then Some([])
    else
      var first := EncodeState(hosts[0]);
      var rest := EncodeChain(hosts[1..]);
      assert forall i :: 1 <= i < |hosts| ==> hosts[i] == hosts[1..][i - 1];
      if first.None? then None
      else if rest.None? then None
      else Some([first.value] + rest.value)
  }

  /** The parent chain walk shared by the encoders: the host, then its ancestors. */
  method HostChain(vfs: VfsHost) returns (chain: seq<VfsHost>)
    ensures chain == Chain(vfs)
  {
    chain := [];
    var hostRec: Option<VfsHost> := Some(vfs);
    while hostRec.Some?
      invariant chain + ChainFrom(hostRec) == Chain(vfs)
      decreases hostRec
    {
      chain := chain + [hostRec.value];
      hostRec := hostRec.value.parent;
    }
    assert chain + [] == chain;
  }

  /** A directory path with a trailing '/'; one is added only when missing. */
  function WithTrailingSlash(path: string): (r: string)
    ensures |r| > 0 && r[|r| - 1] == '/'
    ensures path != [] && path[|path| - 1] == '/' ==> r == path
    ensures path == [] || path[|path| - 1] != '/' ==> r == path + "/"
  {
    if path == [] || path[|path| - 1] != '/' then path + "/" else path
  }

  /** The location of directory `path` on `vfs`: root-first hosts, or none for a native host. */
  function LocationOf(vfs: VfsHost, path: string): Option<Location>
  {
    if IsNativeFS(vfs) then Some(Location([], WithTrailingSlash(path)))
    else
      match EncodeChain(Reverse(Chain(vfs)))
      case None => None
      case Some(hosts) => Some(Location(hosts, WithTrailingSlash(path)))
  }

  /** A native host gives no hosts; any location found keeps the path with its trailing '/'. */
  lemma LocationOfPath(vfs: VfsHost, path: string)
    ensures IsNativeFS(vfs) ==> LocationOf(vfs, path) == Some(Location([], WithTrailingSlash(path)))
    ensures LocationOf(vfs, path).Some? ==> LocationOf(vfs, path).value.path == WithTrailingSlash(path)
  {
  }

  /** Encoding a reversed sequence of hosts: the descriptors come in reverse order. */
  lemma EncodeReversed(s: seq<VfsHost>)
    ensures EncodeChain(Reverse(s)).Some? <==> forall i :: 0 <= i < |s| ==> EncodeState(s[i]).Some?
    ensures EncodeChain(Reverse(s)).Some? ==>
              var hosts := EncodeChain(Reverse(s)).value;
              |hosts| == |s| && forall i :: 0 <= i < |hosts| ==> hosts[i] == EncodeState(s[|s| - 1 - i]).value
  {
    var rootFirst := Reverse(s);
    if forall i :: 0 <= i < |s| ==> EncodeState(s[i]).Some? {
      forall j | 0 <= j < |rootFirst|
        ensures EncodeState(rootFirst[j]).Some?
      {
        assert rootFirst[j] == s[|s| - 1 - j];
      }
    } else {
      var i :| 0 <= i < |s| && EncodeState(s[i]).None?;
      assert rootFirst[|s| - 1 - i] == s[i];
    }
  }

  /**
   * Otherwise the location lists every host of the chain, root first and the
   * host itself last, and exists only when every one of them can be encoded.
   */
  lemma LocationOfHosts(vfs: VfsHost, path: string)
    requires !IsNativeFS(vfs)
    ensures LocationOf(vfs, path).Some? ==> forall i :: 0 <= i < |Chain(vfs)| ==> EncodeState(Chain(vfs)[i]).Some?
    ensures (forall i :: 0 <= i < |Chain(vfs)| ==> EncodeState(Chain(vfs)[i]).Some?) ==> LocationOf(vfs, path).Some?
    ensures LocationOf(vfs, path).Some? ==>
              var hosts := LocationOf(vfs, path).value.hosts;
              |hosts| == |Chain(vfs)| &&
              (forall i :: 0 <= i < |hosts| ==> hosts[i] == EncodeState(Chain(vfs)[|hosts| - 1 - i]).value) &&
              hosts[|hosts| - 1] == EncodeState(vfs).value
  {
    var chain := Chain(vfs);
    assert chain[0] == vfs;
    EncodeReversed(chain);
    if EncodeChain(Reverse(chain)).Some? {
      assert LocationOf(vfs, path) == Some(Location(EncodeChain(Reverse(chain)).value, WithTrailingSlash(path)));
    } else {
      assert LocationOf(vfs, path) == None;
      var j :| 0 <= j < |chain| && EncodeState(chain[j]).None?;
    }
  }

  method EncodeLocation(vfs: VfsHost, path: string) returns (r: Option<Location>)
    ensures r == LocationOf(vfs, path)
  {
    var hosts: seq<Host> := [];
    if !IsNativeFS(vfs) {
      var chain := HostChain(vfs);
      chain := Reverse(chain);
      var i := 0;
      assert chain[i..] == chain;
      while i < |chain|
        invariant 0 <= i <= |chain|
        invariant EncodeChain(chain).Some? <==> EncodeChain(chain[i..]).Some?
        invariant EncodeChain(chain).Some? ==> EncodeChain(chain).value == hosts + EncodeChain(chain[i..]).value
      {
        assert chain[i..][0] == chain[i] && chain[i..][1..] == chain[i + 1..];
        var encoded := EncodeState(chain[i]);
        if encoded.Some? {
          if EncodeChain(chain[i..]).Some? {
            ConcatAssoc(hosts, [encoded.value], EncodeChain(chain[i + 1..]).value);
          }
          hosts := hosts + [encoded.value];
        } else {
          return None;
        }
        i := i + 1;
      }
      assert chain[i..] == [] && hosts + [] == hosts;
      assert EncodeChain(chain) == Some(hosts);
    }
    var p := path;
    if p == [] || p[|p| - 1] != '/' {
      p := p + "/";
    }
    assert p == WithTrailingSlash(path);
    return Some(Location(hosts, p));
  }

  /** A native host always gives a native location, whatever the path. */
  lemma NativeFSLocationIsNative(vfs: VfsHost, path: string)
    requires IsNativeFS(vfs)
    ensures LocationOf(vfs, path).Some? && LocationOf(vfs, path).value.IsNative()
  {
  }

  // ---------------------------------------------------------------------------
  // Footprint and verbose path
  // ---------------------------------------------------------------------------

  datatype ConnectionKind = FTPConnection | SFTPConnection | DropboxConnection | OtherConnection

  /** A network connection as the connections manager describes it. */
  datatype Connection = Connection(kind: ConnectionKind, connectionPath: string)

  function VFSTagForNetworkConnection(conn: Connection): (r: string)
    ensures conn.kind == FTPConnection <==> r == FTPTag
    ensures conn.kind == SFTPConnection <==> r == SFTPTag
    ensures conn.kind == DropboxConnection <==> r == DropboxTag
  {
    match conn.kind
    case FTPConnection => FTPTag
    case SFTPConnection => SFTPTag
    case DropboxConnection => DropboxTag
    case OtherConnection => UnknownVfsTag
  }

  /** One host's share of the footprint, before the "|" that closes it. */
  function HostFootprint(host: Host, connections: map<Uuid, Connection>): string
  {
    match host
    case Native => NativeTag + "|"
    case PSFS => PSTag + "|[psfs]:"
    case XAttr(j) => XAttrTag + "|" + j
    case Network(u) =>
      if u in connections then
        VFSTagForNetworkConnection(connections[u]) + "|" + connections[u].connectionPath
      else ""
    case ArcLA(j) => ArchiveTag + "|" + j
    case ArcUnRAR(j) => UnRARTag + "|" + j
  }

  function HostsFootprint(hosts: seq<Host>, connections: map<Uuid, Connection>): string
    decreases |hosts|
  {
    if hosts == [] then ""
    else HostsFootprint(hosts[..|hosts| - 1], connections) + HostFootprint(hosts[|hosts| - 1], connections) + "|"
  }

  function Footprint(loc: Location, connections: map<Uuid, Connection>): string
  {
    (if loc.hosts == [] then NativeTag + "||" else "") + HostsFootprint(loc.hosts, connections) + loc.path
  }

  /** The body of the footprint loop for one host. */
  method AppendHostFootprint(footprint: string, h: Host, connections: map<Uuid, Connection>) returns (f: string)
    ensures f == footprint + HostFootprint(h, connections)
  {
    f := footprint;
    match h {
      case Native =>
        f := f + NativeTag;
        f := f + "|";
      case PSFS =>
        f := f + PSTag;
        f := f + "|[psfs]:";
      case XAttr(j) =>
        f := f + XAttrTag;
        f := f + "|";
        f := f + j;
      case Network(u) =>
        if u in connections {
          f := f + VFSTagForNetworkConnection(connections[u]);
          f := f + "|";
          f := f + connections[u].connectionPath;
        }
      case ArcLA(j) =>
        f := f + ArchiveTag;
        f := f + "|";
        f := f + j;
      case ArcUnRAR(j) =>
        f := f + UnRARTag;
        f := f + "|";
        f := f + j;
    }
  }

  method MakeFootprintString(loc: Location, connections: map<Uuid, Connection>) returns (footprint: string)
    ensures footprint == Footprint(loc, connections)
  {
    footprint := "";
    if loc.hosts == [] {
      footprint := footprint + NativeTag;
      footprint := footprint + "||";
    }
    var prefix := footprint;
    var i := 0;
    while i < |loc.hosts|
      invariant 0 <= i <= |loc.hosts|
      invariant footprint == prefix + HostsFootprint(loc.hosts[..i], connections)
    {
      var h := loc.hosts[i];
      ghost var done := HostsFootprint(loc.hosts[..i], connections);
      var piece := HostFootprint(h, connections);
      HostsFootprintStep(loc.hosts, i, connections);
      ConcatAssoc(prefix, done, piece);
      ConcatAssoc(prefix, done + piece, "|");
      footprint := AppendHostFootprint(footprint, h, connections);
      footprint := footprint + "|";
      i := i + 1;
    }
    assert loc.hosts[..i] == loc.hosts;
    footprint := footprint + loc.path;
  }

  lemma HostsFootprintStep(hosts: seq<Host>, i: int, connections: map<Uuid, Connection>)
    requires 0 <= i < |hosts|
    ensures HostsFootprint(hosts[..i + 1], connections) ==
            HostsFootprint(hosts[..i], connections) + HostFootprint(hosts[i], connections) + "|"
  {
    assert hosts[..i + 1][..i] == hosts[..i];
  }

  /** With no hosts the footprint is the native tag, "||" and the path. */
  lemma NativeFootprint(path: string, connections: map<Uuid, Connection>)
    ensures Footprint(Location([], path), connections) == "native||" + path
  {
  }

  /** A lone native host prints exactly like no host at all. */
  lemma LoneNativeFootprint(path: string, connections: map<Uuid, Connection>)
    ensures Footprint(Location([Native], path), connections) == Footprint(Location([], path), connections)
  {
    assert HostsFootprint([Native], connections) == HostsFootprint([], connections) + HostFootprint(Native, connections) + "|";
  }

  /** The path comes last, so two locations on the same hosts with different paths never collide. */
  lemma FootprintSeparatesPaths(hosts: seq<Host>, p: string, q: string, connections: map<Uuid, Connection>)
    ensures var f := Footprint(Location(hosts, p), connections);
            |f| >= |p| && f[|f| - |p|..] == p
    ensures p != q ==> Footprint(Location(hosts, p), connections) != Footprint(Location(hosts, q), connections)
  {
    var prefix := (if hosts == [] then NativeTag + "||" else "") + HostsFootprint(hosts, connections);
    assert Footprint(Location(hosts, p), connections) == prefix + p;
    assert Footprint(Location(hosts, q), connections) == prefix + q;
    assert (prefix + p)[|prefix|..] == p;
    assert (prefix + q)[|prefix|..] == q;
  }

  /** One host's share of the human-readable path. */
  function HostVerbose(host: Host, connections: map<Uuid, Connection>): string
  {
    match host
    case Native => ""
    case PSFS => "[psfs]:"
    case XAttr(j) => j
    case Network(u) => if u in connections then connections[u].connectionPath else ""
    case ArcLA(j) => j
    case ArcUnRAR(j) => j
  }

  function HostsVerbose(hosts: seq<Host>, connections: map<Uuid, Connection>): string
    decreases |hosts|
  {
    if hosts == [] then ""
    else HostsVerbose(hosts[..|hosts| - 1], connections) + HostVerbose(hosts[|hosts| - 1], connections)
  }

  function VerbosePath(loc: Location, connections: map<Uuid, Connection>): string
  {
    HostsVerbose(loc.hosts, connections) + loc.path
  }

  method MakeVerbosePathString(loc: Location, connections: map<Uuid, Connection>) returns (verbose: string)
    ensures verbose == VerbosePath(loc, connections)
  {
    verbose := "";
    var i := 0;
    while i < |loc.hosts|
      invariant 0 <= i <= |loc.hosts|
      invariant verbose == HostsVerbose(loc.hosts[..i], connections)
    {
      HostsVerboseStep(loc.hosts, i, connections);
      match loc.hosts[i] {
        case Native =>
        case PSFS => verbose := verbose + "[psfs]:";
        case XAttr(j) => verbose := verbose + j;
        case Network(u) =>
          if u in connections {
            verbose := verbose + connections[u].connectionPath;
          }
        case ArcLA(j) => verbose := verbose + j;
        case ArcUnRAR(j) => verbose := verbose + j;
      }
      i := i + 1;
    }
    assert loc.hosts[..i] == loc.hosts;
    verbose := verbose + loc.path;
  }

  lemma HostsVerboseStep(hosts: seq<Host>, i: int, connections: map<Uuid, Connection>)
    requires 0 <= i < |hosts|
    ensures HostsVerbose(hosts[..i + 1], connections) ==
            HostsVerbose(hosts[..i], connections) + HostVerbose(hosts[i], connections)
  {
    assert hosts[..i + 1][..i] == hosts[..i];
  }

  /** Native hosts add nothing to the readable path: a stack of them reads as the bare path. */
  lemma {:induction false} NativeHostsAreSilent(hosts: seq<Host>, path: string, connections: map<Uuid, Connection>)
    requires forall i :: 0 <= i < |hosts| ==> hosts[i].Native?
    ensures VerbosePath(Location(hosts, path), connections) == path
    decreases |hosts|
  {
    if hosts != [] {
      NativeHostsAreSilent(hosts[..|hosts| - 1], path, connections);
    }
  }

  /** The readable path ends with the location's path. */
  lemma VerbosePathEndsWithPath(loc: Location, connections: map<Uuid, Connection>)
    ensures var v := VerbosePath(loc, connections);
            |v| >= |loc.path| && v[|v| - |loc.path|..] == loc.path
  {
  }

  /** Verbose junctions along the chain of `host`, root first. */
  function JoinedJunctions(chain: seq<VfsHost>): string
    decreases |chain|
  {
    if chain == [] then "" else JoinedJunctions(chain[1..]) + chain[0].verboseJunction
  }

  /**
   * The readable path of a directory on a live host as the code is written:
   * None stands for the undefined `back()` on an empty string, reached when
   * every verbose junction and the directory are empty.
   */
  function VerbosePathOfHostAsWritten(host: VfsHost, directory: string): (r: Option<string>)
    ensures r.None? <==> JoinedJunctions(Chain(host)) + directory == []
  {
    var s := JoinedJunctions(Chain(host)) + directory;
    if s == [] then None
    else if s[|s| - 1] != '/' then Some(s + "/")
    else Some(s)
  }

  /** A native root with an empty verbose junction and an empty directory reaches the undefined case. */
  lemma VerbosePathOfHostEmptyIsUndefined()
    ensures VerbosePathOfHostAsWritten(VfsHost(NativeTag, "", "", None, None), "").None?
  {
    assert Chain(VfsHost(NativeTag, "", "", None, None)) == [VfsHost(NativeTag, "", "", None, None)];
  }

  /** The readable path with the emptiness check the code omits: always ends in '/'. */
  function VerbosePathOfHost(host: VfsHost, directory: string): (r: string)
    ensures |r| > 0 && r[|r| - 1] == '/'
    ensures var s := JoinedJunctions(Chain(host)) + directory;
            r == s || r == s + "/"
    ensures VerbosePathOfHostAsWritten(host, directory).Some? ==>
              r == VerbosePathOfHostAsWritten(host, directory).value
  {
    WithTrailingSlash(JoinedJunctions(Chain(host)) + directory)
  }

  method MakeVerbosePathStringOfHost(host: VfsHost, directory: string) returns (s: string)
    ensures s == VerbosePathOfHost(host, directory)
  {
    var hosts := HostChain(host);
    s := "";
    var n := |hosts|;
    assert hosts[..n] == hosts;
    while n > 0
      invariant 0 <= n <= |hosts|
      invariant s + JoinedJunctions(hosts[..n]) == JoinedJunctions(hosts)
    {
      n := n - 1;
      JoinedJunctionsSplit(hosts[..n + 1]);
      assert hosts[..n + 1][..n] == hosts[..n];
      ConcatAssoc(s, hosts[n].verboseJunction, JoinedJunctions(hosts[..n]));
      s := s + hosts[n].verboseJunction;
    }
    assert hosts[..0] == [] && s + "" == s;
    s := s + directory;
    ghost var joined := s;
    assert joined == JoinedJunctions(Chain(host)) + directory;
    if s == [] || s[|s| - 1] != '/' {
      s := s + "/";
    }
    assert s == WithTrailingSlash(joined);
  }

  /** The last host of a chain (the root) contributes first. */
  lemma {:induction false} JoinedJunctionsSplit(chain: seq<VfsHost>)
    requires chain != []
    ensures JoinedJunctions(chain) ==
              chain[|chain| - 1].verboseJunction + JoinedJunctions(chain[..|chain| - 1])
    decreases |chain|
  {
    if |chain| > 1 {
      JoinedJunctionsSplit(chain[1..]);
      assert chain[1..][..|chain| - 2] == chain[..|chain| - 1][1..];
    } else {
      assert chain[..0] == [];
    }
  }
}
