/** The in-memory registry of server.py: three dictionaries that the HTTP
    handlers update in place.  `fp_to_entity_info` maps a fingerprint to an
    entity's information, `pub_to_gid` maps a public key to the ids of the
    groups it joined, and `gid_db` maps a group id to its record: the group
    information, the members' signatures and three per-member stores (share
    data, individual public keys, group key information).  Request fields
    arrive already decoded; a response is a JSON body and a status code. */
module Registry {

  /** The three per-member stores of a group record. */
  datatype StoreKind = ShareData | IndividualPublicKey | GroupKeyInfo

  /** The field name under which a GET returns an entry. */
  function FieldName(k: StoreKind): string
  {
    match k
    case ShareData => "shareData"
    case IndividualPublicKey => "individualPublicKey"
    case GroupKeyInfo => "groupKeyInfo"
  }

  /** A record of `gid_db`. */
  datatype Group = Group(groupInfo: string, signatures: map<string, string>,
                         shareDataStore: map<string, string>, individualPublicKey: map<string, string>,
                         groupKeyInfoStore: map<string, string>)

  function Entries(g: Group, k: StoreKind): map<string, string>
  {
    match k
    case ShareData => g.shareDataStore
    case IndividualPublicKey => g.individualPublicKey
    case GroupKeyInfo => g.groupKeyInfoStore
  }

  /** The record with `store[pubKey] = value` in store k. */
  function WithEntry(g: Group, k: StoreKind, pubKey: string, value: string): (h: Group)
    ensures Entries(h, k) == Entries(g, k)[pubKey := value]
    ensures forall k' :: k' != k ==> Entries(h, k') == Entries(g, k')
    ensures h.groupInfo == g.groupInfo && h.signatures == g.signatures
  {
    match k
    case ShareData => g.(shareDataStore := g.shareDataStore[pubKey := value])
    case IndividualPublicKey => g.(individualPublicKey := g.individualPublicKey[pubKey := value])
    case GroupKeyInfo => g.(groupKeyInfoStore := g.groupKeyInfoStore[pubKey := value])
  }

  /** A JSON body: `{}`, a string, a list of ids, or an object. */
  datatype Body = EmptyObject | Text(text: string) | Ids(ids: seq<string>) | Fields(fields: map<string, string>)

  /** A response; an uncaught `KeyError` becomes status 500. */
  datatype Response = Response(body: Body, code: nat)

  const OK: nat := 200
  const NOT_FOUND: nat := 404
  const SERVER_ERROR: nat := 500

  /** The three dictionaries. */
  datatype State = State(fpToEntityInfo: map<string, string>, pubToGid: map<string, seq<string>>,
                         gidDb: map<string, Group>)

  // ---------------------------------------------------------------------------
  // What each handler does to the state and what it answers.

  function AfterStoreEntityInfo(s: State, entityInfo: string, fingerprint: string): State
  {
    s.(fpToEntityInfo := s.fpToEntityInfo[fingerprint := entityInfo])
  }

  /** `fp_to_entity_info.get(fingerprint, '')`. */
  function EntityInfo(s: State, fingerprint: string): string
  {
    if fingerprint in s.fpToEntityInfo then s.fpToEntityInfo[fingerprint] else ""
  }

  /** `pub_to_gid.get(pubKey, [])`. */
  function GroupIds(s: State, pubKey: string): seq<string>
  {
    if pubKey in s.pubToGid then s.pubToGid[pubKey] else []
  }

  /** The group id is appended to the key's list; a new group gets a
      record with one signature and empty stores, an existing one only the
      signature of this key. */
  function AfterStoreGroupInfo(s: State, groupID: string, groupInfo: string, signature: string, pubKey: string): State
  {
    var record :=
      if groupID in s.gidDb then
        s.gidDb[groupID].(signatures := s.gidDb[groupID].signatures[pubKey := signature])
      else Group(groupInfo, map[pubKey := signature], map[], map[], map[]);
    s.(pubToGid := s.pubToGid[pubKey := GroupIds(s, pubKey) + [groupID]],
       gidDb := s.gidDb[groupID := record])
  }

  /** `getGroupInfo`: 404 for an unknown group; the lookup of a missing
      signature raises. */
  function GroupInfoResponse(s: State, groupID: string, pubKey: string): Response
  {
    if groupID !in s.gidDb then Response(EmptyObject, NOT_FOUND)
    else if pubKey !in s.gidDb[groupID].signatures then Response(EmptyObject, SERVER_ERROR)
    else Response(Fields(map["signature" := s.gidDb[groupID].signatures[pubKey],
                             "groupInfo" := s.gidDb[groupID].groupInfo]), OK)
  }

  /** A store POST changes the record of a known group only. */
  function AfterStoreEntry(s: State, k: StoreKind, groupID: string, pubKey: string, value: string): State
  {
    if groupID in s.gidDb then s.(gidDb := s.gidDb[groupID := WithEntry(s.gidDb[groupID], k, pubKey, value)])
    else s
  }

  function StoreEntryResponse(s: State, groupID: string): Response
  {
    Response(EmptyObject, if groupID in s.gidDb then OK else NOT_FOUND)
  }

  /** A store GET: 404 for an unknown group or an absent key. */
  function EntryResponse(s: State, k: StoreKind, groupID: string, pubKey: string): Response
  {
    if groupID !in s.gidDb || pubKey !in Entries(s.gidDb[groupID], k) then Response(EmptyObject, NOT_FOUND)
    else Response(Fields(map[FieldName(k) := Entries(s.gidDb[groupID], k)[pubKey]]), OK)
  }

  // ---------------------------------------------------------------------------
  // The server and its handlers.

  class Server {
    var fpToEntityInfo: map<string, string>
    var pubToGid: map<string, seq<string>>
    var gidDb: map<string, Group>

    function Snapshot(): State
      reads this
    {
      State(fpToEntityInfo, pubToGid, gidDb)
    }

    /** The module-level dictionaries, empty at start-up. */
    constructor ()
      ensures Snapshot() == State(map[], map[], map[])
    {
      fpToEntityInfo, pubToGid, gidDb := map[], map[], map[];
    }

    /** POST /entityInfo: stores under the fingerprint the client sent,
        without checking it. */
    method StoreEntityInfo(entityInfo: string, fingerprint: string) returns (r: Response)
      modifies this
      ensures Snapshot() == AfterStoreEntityInfo(old(Snapshot()), entityInfo, fingerprint)
      ensures r == Response(EmptyObject, OK)
    {
      fpToEntityInfo := fpToEntityInfo[fingerprint := entityInfo];
      r := Response(EmptyObject, OK);
    }

    /** GET /entityInfo. */
    method GetEntityInfo(fingerprint: string) returns (r: Response)
      ensures r.code == OK
      ensures r.body == Text(EntityInfo(Snapshot(), fingerprint))
    {
      var v := if fingerprint in fpToEntityInfo then fpToEntityInfo[fingerprint] else "";
      r := Response(Text(v), OK);
    }

    /** POST /groupInfo. */
    method StoreGroupInfo(groupID: string, groupInfo: string, signature: string, pubKey: string) returns (r: Response)
      modifies this
      ensures Snapshot() == AfterStoreGroupInfo(old(Snapshot()), groupID, groupInfo, signature, pubKey)
      ensures r == Response(EmptyObject, OK)
    {
      if pubKey in pubToGid {
        pubToGid := pubToGid[pubKey := pubToGid[pubKey] + [groupID]];
      } else {
        assert [] + [groupID] == [groupID];
        pubToGid := pubToGid[pubKey := [groupID]];
      }
      if groupID in gidDb {
        var g := gidDb[groupID];
        gidDb := gidDb[groupID := g.(signatures := g.signatures[pubKey := signature])];
      } else {
        gidDb := gidDb[groupID := Group(groupInfo, map[pubKey := signature], map[], map[], map[])];
      }
      r := Response(EmptyObject, OK);
    }

    /** GET /groupInfo. */
    method GetGroupInfo(groupID: string, pubKey: string) returns (r: Response)
      ensures r == GroupInfoResponse(Snapshot(), groupID, pubKey)
      ensures r.code == OK <==> groupID in gidDb && pubKey in gidDb[groupID].signatures
    {
      if groupID in gidDb {
        var g := gidDb[groupID];
        if pubKey !in g.signatures {
          return Response(EmptyObject, SERVER_ERROR);
        }
        return Response(Fields(map["signature" := g.signatures[pubKey], "groupInfo" := g.groupInfo]), OK);
      } else {
        return Response(EmptyObject, NOT_FOUND);
      }
    }

    /** GET /groupID. */
    method GetGroupID(pubKey: string) returns (r: Response)
      ensures r == Response(Ids(GroupIds(Snapshot(), pubKey)), OK)
    {
      var ids := if pubKey in pubToGid then pubToGid[pubKey] else [];
      r := Response(Ids(ids), OK);
    }

    /** The shared body of the three store POSTs. */
    method StoreEntry(k: StoreKind, groupID: string, pubKey: string, value: string) returns (r: Response)
      modifies this
      ensures Snapshot() == AfterStoreEntry(old(Snapshot()), k, groupID, pubKey, value)
      ensures r == StoreEntryResponse(old(Snapshot()), groupID)
    {
      if groupID in gidDb {
        gidDb := gidDb[groupID := WithEntry(gidDb[groupID], k, pubKey, value)];
      } else {
        return Response(EmptyObject, NOT_FOUND);
      }
      r := Response(EmptyObject, OK);
    }

    /** The shared body of the three store GETs. */
    method GetEntry(k: StoreKind, groupID: string, pubKey: string) returns (r: Response)
      ensures r == EntryResponse(Snapshot(), k, groupID, pubKey)
      ensures r.code == OK <==> groupID in gidDb && pubKey in Entries(gidDb[groupID], k)
    {
      if groupID in gidDb {
        var store := Entries(gidDb[groupID], k);
        if pubKey !in store {
          return Response(EmptyObject, NOT_FOUND);
        }
        return Response(Fields(map[FieldName(k) := store[pubKey]]), OK);
      } else {
        return Response(EmptyObject, NOT_FOUND);
      }
    }

    /** POST and GET /shareData. */
    method StoreShareData(groupID: string, shareData: string, pubKey: string) returns (r: Response)
      modifies this
      ensures Snapshot() == AfterStoreEntry(old(Snapshot()), ShareData, groupID, pubKey, shareData)
      ensures r == StoreEntryResponse(old(Snapshot()), groupID)
    {
      r := StoreEntry(ShareData, groupID, pubKey, shareData);
    }

    method GetShareData(groupID: string, pubKey: string) returns (r: Response)
      ensures r == EntryResponse(Snapshot(), ShareData, groupID, pubKey)
    {
      r := GetEntry(ShareData, groupID, pubKey);
    }

    /** POST and GET /individualPublicKey. */
    method StoreIndividualPublicKey(groupID: string, pubKey: string, individualPublicKey: string) returns (r: Response)
      modifies this
      ensures Snapshot() == AfterStoreEntry(old(Snapshot()), IndividualPublicKey, groupID, pubKey, individualPublicKey)
      ensures r == StoreEntryResponse(old(Snapshot()), groupID)
    {
      r := StoreEntry(IndividualPublicKey, groupID, pubKey, individualPublicKey);
    }

    method GetIndividualPublicKey(groupID: string, pubKey: string) returns (r: Response)
      ensures r == EntryResponse(Snapshot(), IndividualPublicKey, groupID, pubKey)
    {
      r := GetEntry(IndividualPublicKey, groupID, pubKey);
    }

    /** POST and GET /groupKeyInfo. */
    method StoreGroupKeyInfo(groupID: string, pubKey: string, groupKeyInfo: string) returns (r: Response)
      modifies this
      ensures Snapshot() == AfterStoreEntry(old(Snapshot()), GroupKeyInfo, groupID, pubKey, groupKeyInfo)
      ensures r == StoreEntryResponse(old(Snapshot()), groupID)
    {
      r := StoreEntry(GroupKeyInfo, groupID, pubKey, groupKeyInfo);
    }

    method GetGroupKeyInfo(groupID: string, pubKey: string) returns (r: Response)
      ensures r == EntryResponse(Snapshot(), GroupKeyInfo, groupID, pubKey)
    {
      r := GetEntry(GroupKeyInfo, groupID, pubKey);
    }
  }

  // ---------------------------------------------------------------------------
  // Properties of the handlers.

  /** Storing entity information overwrites the fingerprint's value and no
      other. */
  lemma EntityInfoRoundTrip(s: State, entityInfo: string, fingerprint: string, other: string)
    ensures EntityInfo(AfterStoreEntityInfo(s, entityInfo, fingerprint), fingerprint) == entityInfo
    ensures other != fingerprint ==>
      EntityInfo(AfterStoreEntityInfo(s, entityInfo, fingerprint), other) == EntityInfo(s, other)
  {
  }

  /** Joining a group appends its id to the key's list, duplicates
      included; other keys' lists stay. */
  lemma GroupIdsAppend(s: State, groupID: string, groupInfo: string, signature: string, pubKey: string, other: string)
    ensures GroupIds(AfterStoreGroupInfo(s, groupID, groupInfo, signature, pubKey), pubKey) == GroupIds(s, pubKey) + [groupID]
    ensures other != pubKey ==>
      GroupIds(AfterStoreGroupInfo(s, groupID, groupInfo, signature, pubKey), other) == GroupIds(s, other)
  {
  }

  /** The first store of a group fixes its information; later stores only
      add signatures, and a stored signature is returned with it. */
  lemma GroupInfoRoundTrip(s: State, groupID: string, groupInfo: string, signature: string, pubKey: string)
    ensures var t := AfterStoreGroupInfo(s, groupID, groupInfo, signature, pubKey);
      GroupInfoResponse(t, groupID, pubKey) ==
        Response(Fields(map["signature" := signature,
                            "groupInfo" := if groupID in s.gidDb then s.gidDb[groupID].groupInfo else groupInfo]), OK)
    ensures groupID !in s.gidDb ==>
      AfterStoreGroupInfo(s, groupID, groupInfo, signature, pubKey).gidDb[groupID] ==
        Group(groupInfo, map[pubKey := signature], map[], map[], map[])
    ensures groupID in s.gidDb ==>
      var g := AfterStoreGroupInfo(s, groupID, groupInfo, signature, pubKey).gidDb[groupID];
      g == s.gidDb[groupID].(signatures := s.gidDb[groupID].signatures[pubKey := signature])
  {
  }

  /** A key without a signature in a known group makes `getGroupInfo` raise. */
  lemma GroupInfoMissingSignature(s: State, groupID: string, pubKey: string)
    requires groupID in s.gidDb && pubKey !in s.gidDb[groupID].signatures
    ensures GroupInfoResponse(s, groupID, pubKey).code == SERVER_ERROR
  {
  }

  /** For a known group a stored entry comes back with 200; for an unknown
      group the POST answers 404 and changes nothing, and a GET answers
      404. */
  lemma EntryRoundTrip(s: State, k: StoreKind, groupID: string, pubKey: string, value: string)
    ensures groupID in s.gidDb ==>
      StoreEntryResponse(s, groupID).code == OK &&
      EntryResponse(AfterStoreEntry(s, k, groupID, pubKey, value), k, groupID, pubKey) ==
        Response(Fields(map[FieldName(k) := value]), OK)
    ensures groupID !in s.gidDb ==>
      StoreEntryResponse(s, groupID).code == NOT_FOUND && AfterStoreEntry(s, k, groupID, pubKey, value) == s &&
      EntryResponse(s, k, groupID, pubKey).code == NOT_FOUND
  {
  }

  /** A store POST leaves the other stores, the other keys, the other groups
      and the other two dictionaries as they were. */
  lemma EntryFrame(s: State, k: StoreKind, groupID: string, pubKey: string, value: string,
                   k': StoreKind, groupID': string, pubKey': string)
    requires k' != k || groupID' != groupID || pubKey' != pubKey
    ensures EntryResponse(AfterStoreEntry(s, k, groupID, pubKey, value), k', groupID', pubKey') ==
            EntryResponse(s, k', groupID', pubKey')
    ensures AfterStoreEntry(s, k, groupID, pubKey, value).fpToEntityInfo == s.fpToEntityInfo
    ensures AfterStoreEntry(s, k, groupID, pubKey, value).pubToGid == s.pubToGid
    ensures GroupInfoResponse(AfterStoreEntry(s, k, groupID, pubKey, value), groupID', pubKey') ==
            GroupInfoResponse(s, groupID', pubKey')
  {
  }
}
