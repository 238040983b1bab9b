/**
  The record a heartbeat registers at the Directory Service
  (HeartbeatThread.registerServices). For every service the server reports,
  the record previously stored at the directory (if any) and the freshly
  generated registration are merged: the stored version is kept, the stored
  `static.` attributes are carried over, `static.status` gets a default, and
  for a volume the list of replica MRCs `mrc`, `mrc2`, `mrc3`, ... is
  extended with the registering MRC.

  The directory calls themselves are not modelled: the directory's reply to
  each lookup by UUID is a parameter, and the merged record is the result.
 */
module ServiceRegistration {
  import opened Wrappers
  import opened JavaText

  datatype KeyValuePair = KeyValuePair(key: string, value: string)

  datatype ServiceType =
    | ServiceTypeMixed
    | ServiceTypeMrc
    | ServiceTypeOsd
    | ServiceTypeVolume
    | ServiceTypeDir

  /** A service entry of the directory (the `DIR.Service` message). */
  datatype Service = Service(
    serviceType: ServiceType,
    uuid: string,
    version: int,
    name: string,
    lastUpdatedS: int,
    data: seq<KeyValuePair>)

  /** The exceptions the merge can raise. */
  datatype MergeError =
    | BadMrcSuffix(key: string)  // NumberFormatException from Integer.parseInt
    | MissingMrcUuid             // NullPointerException: the volume names no "mrc"

  const StaticAttrPrefix: string := "static."
  const StatusAttr: string := StaticAttrPrefix + "status"
  /** The number of DIR.ServiceStatus.SERVICE_STATUS_AVAIL. */
  const ServiceStatusAvail: int := 0
  const MrcAttr: string := "mrc"

  predicate IsStaticKey(key: string) { StartsWith(key, StaticAttrPrefix) }

  /** Keys starting with "mrc": the volume's replica MRC list. */
  predicate IsMrcKey(key: string) { StartsWith(key, MrcAttr) }

  predicate IsMrcEntry(kv: KeyValuePair) { IsMrcKey(kv.key) }

  predicate IsOtherEntry(kv: KeyValuePair) { !IsMrcKey(kv.key) }

  /** A replica key "mrcN": starts with "mrc" and is not "mrc" itself. */
  predicate IsNumberedMrcKey(key: string) { IsMrcKey(key) && key != MrcAttr }

  function MrcSuffix(key: string): string
    requires IsMrcKey(key)
  {
    key[|MrcAttr|..]
  }

  /** The replica key for number `n`: `"mrc" + n`. */
  function MrcKey(n: int): string { MrcAttr + IntToString(n) }

  // ---------------------------------------------------------------------
  // Sequences kept in order

  function Filter<T>(s: seq<T>, p: T -> bool): seq<T> {
    if s == [] then []
    else Filter(s[..|s| - 1], p) + (if p(s[|s| - 1]) then [s[|s| - 1]] else [])
  }

  lemma {:induction false} FilterMembership<T>(s: seq<T>, p: T -> bool, x: T)
    ensures x in Filter(s, p) <==> x in s && p(x)
  {
    if s != [] {
      var init := s[..|s| - 1];
      FilterMembership(init, p, x);
      assert s == init + [s[|s| - 1]];
    }
  }

  // ---------------------------------------------------------------------
  // Static attributes of the stored record

  /** The `static.` attributes, put into a map one entry at a time: a later
      entry with the same key replaces an earlier one. */
  function StaticAttrs(data: seq<KeyValuePair>): map<string, string> {
    if data == [] then map[]
    else
      var kv := data[|data| - 1];
      var m := StaticAttrs(data[..|data| - 1]);
      if IsStaticKey(kv.key) then m[kv.key := kv.value] else m
  }

  /** Every static attribute of the map stems from an entry of the data with
      that key and value, and every static key of the data is in the map. */
  lemma {:induction false} StaticAttrsKeys(data: seq<KeyValuePair>, k: string)
    ensures k in StaticAttrs(data) <==> IsStaticKey(k) && exists i :: 0 <= i < |data| && data[i].key == k
    ensures k in StaticAttrs(data) ==> exists i :: 0 <= i < |data| && data[i] == KeyValuePair(k, StaticAttrs(data)[k])
  {
    if data != [] {
      var init := data[..|data| - 1];
      StaticAttrsKeys(init, k);
      assert forall i :: 0 <= i < |init| ==> init[i] == data[i];
      if k in StaticAttrs(init) && k != data[|data| - 1].key {
        var i :| 0 <= i < |init| && init[i] == KeyValuePair(k, StaticAttrs(init)[k]);
        assert data[i] == KeyValuePair(k, StaticAttrs(data)[k]);
      }
    }
  }

  /** A static attribute keeps the value of its last occurrence. */
  lemma {:induction false} StaticAttrsLastValue(data: seq<KeyValuePair>, i: nat)
    requires i < |data| && IsStaticKey(data[i].key)
    requires forall j :: i < j < |data| ==> data[j].key != data[i].key
    ensures data[i].key in StaticAttrs(data) && StaticAttrs(data)[data[i].key] == data[i].value
  {
    if i < |data| - 1 {
      StaticAttrsLastValue(data[..|data| - 1], i);
    }
  }

  /** `static.status` is added with SERVICE_STATUS_AVAIL unless present. */
  function WithStatus(attrs: map<string, string>): (r: map<string, string>)
    ensures StatusAttr in r
    ensures StatusAttr in attrs ==> r == attrs
    ensures StatusAttr !in attrs ==> r == attrs[StatusAttr := IntToString(ServiceStatusAvail)]
  {
    if StatusAttr in attrs then attrs else attrs[StatusAttr := IntToString(ServiceStatusAvail)]
  }

  function StoredVersion(stored: Option<Service>): int {
    if stored.Some? then stored.value.version else 0
  }

  /** The static attributes the merged record starts with. */
  function RecordStatics(stored: Option<Service>): map<string, string> {
    WithStatus(if stored.Some? then StaticAttrs(stored.value.data) else map[])
  }

  predicate KeysDistinct(s: seq<KeyValuePair>) {
    forall i, j :: 0 <= i < j < |s| ==> s[i].key != s[j].key
  }

  /** `s` lists the entries of `m`, each exactly once, in some order. */
  ghost predicate IsListing(s: seq<KeyValuePair>, m: map<string, string>) {
    && |s| == |m|
    && KeysDistinct(s)
    && (forall i :: 0 <= i < |s| ==> s[i].key in m && m[s[i].key] == s[i].value)
    && (forall k :: k in m ==> exists i :: 0 <= i < |s| && s[i].key == k)
  }

  // ---------------------------------------------------------------------
  // The replica MRC list of a volume

  /** A volume whose stored entry has the same UUID is merged key by key. */
  predicate IsVolumeCase(stored: Option<Service>, reg: Service) {
    reg.serviceType == ServiceTypeVolume && stored.Some? && stored.value.uuid == reg.uuid
  }

  /** The value of the first entry keyed exactly "mrc". */
  function FindMrc(data: seq<KeyValuePair>): Option<string> {
    if data == [] then None
    else if data[0].key == MrcAttr then Some(data[0].value)
    else FindMrc(data[1..])
  }

  /** The largest replica number, starting from 1; the first key whose
      suffix is not a Java `int` aborts the scan. */
  function MaxMrcNo(data: seq<KeyValuePair>): Result<int, MergeError> {
    if data == [] then Success(1)
    else
      match MaxMrcNo(data[..|data| - 1])
      case Failure(e) => Failure(e)
      case Success(m) =>
        var key := data[|data| - 1].key;
        if !IsNumberedMrcKey(key) then Success(m)
        else
          match ParseInt(MrcSuffix(key))
          case None => Failure(BadMrcSuffix(key))
          case Some(no) => Success(if no > m then no else m)
  }

  predicate ListsMrcUuid(data: seq<KeyValuePair>, uuid: string) {
    exists i :: 0 <= i < |data| && IsMrcKey(data[i].key) && data[i].value == uuid
  }

  lemma ListsMrcUuidAppend(data: seq<KeyValuePair>, kv: KeyValuePair, uuid: string)
    ensures ListsMrcUuid(data + [kv], uuid) <==> ListsMrcUuid(data, uuid) || (IsMrcKey(kv.key) && kv.value == uuid)
  {
    var s := data + [kv];
    if ListsMrcUuid(data, uuid) {
      var i :| 0 <= i < |data| && IsMrcKey(data[i].key) && data[i].value == uuid;
      assert s[i] == data[i];
    }
    if IsMrcKey(kv.key) && kv.value == uuid {
      assert s[|data|] == kv;
    }
    if ListsMrcUuid(s, uuid) {
      var i :| 0 <= i < |s| && IsMrcKey(s[i].key) && s[i].value == uuid;
      if i < |data| {
        assert data[i] == s[i];
      }
    }
  }

  /** The data of a volume registered again: the stored replica entries in
      order, the registering MRC under the next vacant key unless it is
      listed already, then the registration's entries not starting with
      "mrc". The next key is computed with Java `int` addition. */
  function VolumeData(oldData: seq<KeyValuePair>, regData: seq<KeyValuePair>): Result<seq<KeyValuePair>, MergeError> {
    match MaxMrcNo(oldData)
    case Failure(e) => Failure(e)
    case Success(m) =>
      match FindMrc(regData)
      case None => Failure(MissingMrcUuid)
      case Some(u) =>
        var added := if ListsMrcUuid(oldData, u) then [] else [KeyValuePair(MrcKey(Wrap32(m + 1)), u)];
        Success(Filter(oldData, IsMrcEntry) + added + Filter(regData, IsOtherEntry))
  }

  /** Everything of the merged data after the static attributes. */
  function DynamicData(stored: Option<Service>, reg: Service): Result<seq<KeyValuePair>, MergeError> {
    if IsVolumeCase(stored, reg) then VolumeData(stored.value.data, reg.data) else Success(reg.data)
  }

  /** `rec` is a record the merge may send: the registration with the stored
      version, whose data is the static attributes in some order followed
      by the dynamic data. */
  ghost predicate IsMergedRecord(stored: Option<Service>, reg: Service, rec: Service) {
    var statics := RecordStatics(stored);
    && DynamicData(stored, reg).Success?
    && rec == reg.(version := StoredVersion(stored), data := rec.data)
    && |statics| <= |rec.data|
    && IsListing(rec.data[..|statics|], statics)
    && rec.data[|statics|..] == DynamicData(stored, reg).value
  }

  // ---------------------------------------------------------------------
  // Properties of the replica list

  /** FindMrc yields the value of the first "mrc" entry, if there is one. */
  lemma {:induction false} FindMrcIsFirst(data: seq<KeyValuePair>, u: string)
    ensures FindMrc(data) == Some(u) <==>
      exists i :: 0 <= i < |data| && data[i] == KeyValuePair(MrcAttr, u) &&
        forall j :: 0 <= j < i ==> data[j].key != MrcAttr
  {
    if data != [] {
      FindMrcIsFirst(data[1..], u);
      if FindMrc(data) == Some(u) && data[0].key != MrcAttr {
        var i :| 0 <= i < |data[1..]| && data[1..][i] == KeyValuePair(MrcAttr, u) &&
          forall j :: 0 <= j < i ==> data[1..][j].key != MrcAttr;
        assert data[i + 1] == KeyValuePair(MrcAttr, u);
      }
      if exists i :: 0 <= i < |data| && data[i] == KeyValuePair(MrcAttr, u) &&
          forall j :: 0 <= j < i ==> data[j].key != MrcAttr {
        var i :| 0 <= i < |data| && data[i] == KeyValuePair(MrcAttr, u) &&
          forall j :: 0 <= j < i ==> data[j].key != MrcAttr;
        if i > 0 {
          assert data[1..][i - 1] == KeyValuePair(MrcAttr, u);
        }
      }
    }
  }

  lemma FindMrcNone(data: seq<KeyValuePair>)
    ensures FindMrc(data).None? <==> forall i :: 0 <= i < |data| ==> data[i].key != MrcAttr
  {
    if FindMrc(data).Some? {
      FindMrcIsFirst(data, FindMrc(data).value);
    } else if i :| 0 <= i < |data| && data[i].key == MrcAttr {
      var first := FirstMrcIndex(data, i);
      FindMrcIsFirst(data, data[first].value);
    }
  }

  function FirstMrcIndex(data: seq<KeyValuePair>, i: nat): (first: nat)
    requires i < |data| && data[i].key == MrcAttr
    ensures first <= i && data[first].key == MrcAttr
    ensures forall j :: 0 <= j < first ==> data[j].key != MrcAttr
  {
    if i == 0 || forall j :: 0 <= j < i ==> data[j].key != MrcAttr then i
    else
      var j :| 0 <= j < i && data[j].key == MrcAttr;
      FirstMrcIndex(data, j)
  }

  /** The scan result is a Java `int` no smaller than 1 and no smaller than
      any replica number, and it is 1 or one of the replica numbers. */
  lemma {:induction false} MaxMrcNoIsMaximum(data: seq<KeyValuePair>, m: int)
    requires MaxMrcNo(data) == Success(m)
    ensures 1 <= m && InInt(m)
    ensures forall i :: 0 <= i < |data| && IsNumberedMrcKey(data[i].key) ==>
      ParseInt(MrcSuffix(data[i].key)).Some? && ParseInt(MrcSuffix(data[i].key)).value <= m
    ensures m == 1 ||
      exists i :: 0 <= i < |data| && IsNumberedMrcKey(data[i].key) &&
        ParseInt(MrcSuffix(data[i].key)) == Some(m)
  {
    if data != [] {
      var init := data[..|data| - 1];
      var m' := MaxMrcNo(init).value;
      MaxMrcNoIsMaximum(init, m');
      assert forall i :: 0 <= i < |init| ==> init[i] == data[i];
      if m != 1 && m == m' {
        var i :| 0 <= i < |init| && IsNumberedMrcKey(init[i].key) && ParseInt(MrcSuffix(init[i].key)) == Some(m);
        assert data[i] == init[i];
      }
    }
  }

  /** The scan fails exactly when some replica key has a suffix that is not
      a Java `int`, and it names such a key. */
  lemma {:induction false} MaxMrcNoFailure(data: seq<KeyValuePair>)
    ensures MaxMrcNo(data).Failure? <==>
      exists i :: 0 <= i < |data| && IsNumberedMrcKey(data[i].key) && ParseInt(MrcSuffix(data[i].key)).None?
    ensures MaxMrcNo(data).Failure? ==>
      exists i :: 0 <= i < |data| && MaxMrcNo(data).error == BadMrcSuffix(data[i].key) &&
        IsNumberedMrcKey(data[i].key) && ParseInt(MrcSuffix(data[i].key)).None?
  {
    if data != [] {
      var init := data[..|data| - 1];
      MaxMrcNoFailure(init);
      assert forall i :: 0 <= i < |init| ==> init[i] == data[i];
      if MaxMrcNo(init).Success? {
        MaxMrcNoIsMaximum(init, MaxMrcNo(init).value);
      }
    }
  }

  /** Once the scan has failed on a prefix, it fails the same way on the whole. */
  lemma {:induction false} MaxMrcNoPrefixFailure(data: seq<KeyValuePair>, i: nat)
    requires i <= |data| && MaxMrcNo(data[..i]).Failure?
    ensures MaxMrcNo(data) == MaxMrcNo(data[..i])
  {
    if i < |data| {
      var init := data[..|data| - 1];
      assert init[..i] == data[..i];
      MaxMrcNoPrefixFailure(init, i);
    } else {
      assert data[..i] == data;
    }
  }

  /** The entries of the volume data: the stored replica entries, the
      registration's entries not starting with "mrc", and the added replica
      entry when the registering MRC is not listed yet; nothing else. */
  lemma VolumeDataEntries(oldData: seq<KeyValuePair>, regData: seq<KeyValuePair>, kv: KeyValuePair)
    requires VolumeData(oldData, regData).Success?
    ensures var u := FindMrc(regData).value;
      var m := MaxMrcNo(oldData).value;
      kv in VolumeData(oldData, regData).value <==>
        || (kv in oldData && IsMrcKey(kv.key))
        || (kv in regData && !IsMrcKey(kv.key))
        || (!ListsMrcUuid(oldData, u) && kv == KeyValuePair(MrcKey(Wrap32(m + 1)), u))
  {
    var u := FindMrc(regData).value;
    var m := MaxMrcNo(oldData).value;
    var added := if ListsMrcUuid(oldData, u) then [] else [KeyValuePair(MrcKey(Wrap32(m + 1)), u)];
    var replicas := Filter(oldData, IsMrcEntry);
    var others := Filter(regData, IsOtherEntry);
    VolumeDataParts(oldData, regData);
    ConcatMembership(kv, replicas, added, others);
    FilterMembership(oldData, IsMrcEntry, kv);
    FilterMembership(regData, IsOtherEntry, kv);
  }

  lemma VolumeDataParts(oldData: seq<KeyValuePair>, regData: seq<KeyValuePair>)
    requires VolumeData(oldData, regData).Success?
    ensures var u := FindMrc(regData).value;
      var m := MaxMrcNo(oldData).value;
      VolumeData(oldData, regData).value ==
        Filter(oldData, IsMrcEntry)
        + (if ListsMrcUuid(oldData, u) then [] else [KeyValuePair(MrcKey(Wrap32(m + 1)), u)])
        + Filter(regData, IsOtherEntry)
  {
  }

  lemma ConcatMembership<T>(x: T, a: seq<T>, b: seq<T>, c: seq<T>)
    ensures x in a + b + c <==> x in a || x in b || x in c
  {
  }

  /** A registering MRC that is listed already adds no entry. */
  lemma VolumeDataListedReplica(oldData: seq<KeyValuePair>, regData: seq<KeyValuePair>, u: string)
    requires MaxMrcNo(oldData).Success? && FindMrc(regData) == Some(u)
    requires ListsMrcUuid(oldData, u)
    ensures VolumeData(oldData, regData) == Success(Filter(oldData, IsMrcEntry) + Filter(regData, IsOtherEntry))
  {
    assert Filter(oldData, IsMrcEntry) + [] == Filter(oldData, IsMrcEntry);
  }

  /** A registering MRC not listed yet is added exactly once, under the key
      "mrc" + k with k = max(1, every replica number) + 1; k is at least 2,
      exceeds every replica number and is vacant among the stored keys. */
  lemma VolumeDataAddsReplica(oldData: seq<KeyValuePair>, regData: seq<KeyValuePair>, u: string, m: int)
    requires MaxMrcNo(oldData) == Success(m) && FindMrc(regData) == Some(u)
    requires !ListsMrcUuid(oldData, u)
    requires m < IntMax
    ensures VolumeData(oldData, regData) ==
      Success(Filter(oldData, IsMrcEntry) + [KeyValuePair(MrcKey(m + 1), u)] + Filter(regData, IsOtherEntry))
    ensures m + 1 >= 2
    ensures forall i :: 0 <= i < |oldData| && IsNumberedMrcKey(oldData[i].key) ==>
      ParseInt(MrcSuffix(oldData[i].key)).Some? && ParseInt(MrcSuffix(oldData[i].key)).value < m + 1
    ensures forall i :: 0 <= i < |oldData| ==> oldData[i].key != MrcKey(m + 1)
  {
    MaxMrcNoIsMaximum(oldData, m);
    ParseIntOfIntToString(m + 1);
    forall i | 0 <= i < |oldData|
      ensures oldData[i].key != MrcKey(m + 1)
    {
      MrcKeyShape(oldData[i].key, m + 1);
    }
  }

  /** A key equals MrcKey(n) only if it is a replica key whose suffix
      parses to n. */
  lemma MrcKeyShape(key: string, n: int)
    requires InInt(n)
    ensures key == MrcKey(n) ==> IsNumberedMrcKey(key) && ParseInt(MrcSuffix(key)) == Some(n)
  {
    if key == MrcKey(n) {
      assert key[..|MrcAttr|] == MrcAttr;
      assert MrcSuffix(key) == IntToString(n);
      ParseIntOfIntToString(n);
    }
  }

  /** Appending the replica key for `n` raises the scan result to `n` at most. */
  lemma MaxMrcNoAppendKey(data: seq<KeyValuePair>, m: int, n: int, v: string)
    requires MaxMrcNo(data) == Success(m) && InInt(n)
    ensures MaxMrcNo(data + [KeyValuePair(MrcKey(n), v)]) == Success(if n > m then n else m)
  {
    var data' := data + [KeyValuePair(MrcKey(n), v)];
    assert data'[..|data|] == data;
    MrcKeyShape(MrcKey(n), n);
  }

  /** A volume listing only replica entries, registered by an MRC not yet
      listed whose registration holds nothing but its "mrc" entry. */
  lemma VolumeDataOnlyReplicas(oldData: seq<KeyValuePair>, m: int, u: string)
    requires MaxMrcNo(oldData) == Success(m)
    requires Filter(oldData, IsMrcEntry) == oldData
    requires !ListsMrcUuid(oldData, u)
    ensures VolumeData(oldData, [KeyValuePair(MrcAttr, u)]) ==
      Success(oldData + [KeyValuePair(MrcKey(Wrap32(m + 1)), u)])
  {
    var reg := [KeyValuePair(MrcAttr, u)];
    assert FindMrc(reg) == Some(u);
    assert Filter(reg, IsOtherEntry) == [] by {
      assert reg[..0] == [];
      assert !IsOtherEntry(reg[0]);
    }
    var added := [KeyValuePair(MrcKey(Wrap32(m + 1)), u)];
    assert VolumeData(oldData, reg) == Success(oldData + added + []);
    assert oldData + added + [] == oldData + added;
  }

  /** A stored replica list whose largest number is `top`, extended by the
      key for `next`. */
  lemma ReplicaListExtended(stored: seq<KeyValuePair>, top: int, next: int, v: string)
    requires MaxMrcNo(stored) == Success(top) && Filter(stored, IsMrcEntry) == stored
    requires InInt(next) && next <= top
    ensures MaxMrcNo(stored + [KeyValuePair(MrcKey(next), v)]) == Success(top)
    ensures Filter(stored + [KeyValuePair(MrcKey(next), v)], IsMrcEntry) == stored + [KeyValuePair(MrcKey(next), v)]
  {
    var s := stored + [KeyValuePair(MrcKey(next), v)];
    MaxMrcNoAppendKey(stored, top, next, v);
    MrcKeyShape(MrcKey(next), next);
    assert s[..|s| - 1] == stored;
  }

  /** When the next number wraps (`bottom`, which is "-2147483648" after
      `top` = 2147483647, see Wrap32Overflow), the stored list "mrc",
      "mrc<top>" grows by the key "mrc<bottom>" when a further MRC registers. */
  lemma WrappedReplicaKey(top: int, bottom: int, a: string, b: string, c: string)
    requires 1 <= top && InInt(top) && bottom == Wrap32(top + 1) && bottom <= top
    requires c != a && c != b
    ensures var stored := [KeyValuePair(MrcAttr, a), KeyValuePair(MrcKey(top), b)];
      var first := stored + [KeyValuePair(MrcKey(bottom), c)];
      && VolumeData(stored, [KeyValuePair(MrcAttr, c)]) == Success(first)
      && MaxMrcNo(first) == Success(top)
      && Filter(first, IsMrcEntry) == first
    ensures top == IntMax && MrcKey(bottom) == "mrc-2147483648"
  {
    WrappedKeyLiteral(top, bottom);
    var stored := [KeyValuePair(MrcAttr, a), KeyValuePair(MrcKey(top), b)];
    TwoReplicaList(top, a, b);
    ReplicaListExtended(stored, top, bottom, c);
    assert !ListsMrcUuid(stored, c);
    VolumeDataOnlyReplicas(stored, top, c);
  }

  /** The only number whose successor wraps is 2147483647, and the key
      after it is "mrc-2147483648". */
  lemma WrappedKeyLiteral(top: int, bottom: int)
    requires InInt(top) && bottom == Wrap32(top + 1) && bottom <= top
    ensures top == IntMax && bottom == IntMin
    ensures MrcKey(bottom) == "mrc-2147483648"
  {
    Wrap32Overflow(top);
    // Integer.toString(-2147483648), one digit at a time
    assert NatToString(2) == "2";
    assert NatToString(21) == "21" by {
      assert NatToString(21) == NatToString(2) + [DigitChar(1)];
    }
    assert NatToString(214) == "214" by {
      assert NatToString(214) == NatToString(21) + [DigitChar(4)];
    }
    assert NatToString(2147) == "2147" by {
      assert NatToString(2147) == NatToString(214) + [DigitChar(7)];
    }
    assert NatToString(21474) == "21474" by {
      assert NatToString(21474) == NatToString(2147) + [DigitChar(4)];
    }
    assert NatToString(214748) == "214748" by {
      assert NatToString(214748) == NatToString(21474) + [DigitChar(8)];
    }
    assert NatToString(2147483) == "2147483" by {
      assert NatToString(2147483) == NatToString(214748) + [DigitChar(3)];
    }
    assert NatToString(21474836) == "21474836" by {
      assert NatToString(21474836) == NatToString(2147483) + [DigitChar(6)];
    }
    assert NatToString(214748364) == "214748364" by {
      assert NatToString(214748364) == NatToString(21474836) + [DigitChar(4)];
    }
    assert NatToString(2147483648) == "2147483648" by {
      assert NatToString(2147483648) == NatToString(214748364) + [DigitChar(8)];
    }
    assert IntToString(IntMin) == "-" + NatToString(2147483648);
  }

  /** The stored list "mrc", "mrc<top>" holds only replica entries and its
      largest number is `top`. */
  lemma TwoReplicaList(top: int, a: string, b: string)
    requires 1 <= top && InInt(top)
    ensures var stored := [KeyValuePair(MrcAttr, a), KeyValuePair(MrcKey(top), b)];
      MaxMrcNo(stored) == Success(top) && Filter(stored, IsMrcEntry) == stored
  {
    var stored := [KeyValuePair(MrcAttr, a), KeyValuePair(MrcKey(top), b)];
    var head := [KeyValuePair(MrcAttr, a)];
    assert MaxMrcNo(head) == Success(1) by {
      assert head[..0] == [];
    }
    assert Filter(head, IsMrcEntry) == head by {
      assert head[..0] == [];
      assert IsMrcEntry(head[0]);
    }
    assert stored == head + [KeyValuePair(MrcKey(top), b)];
    assert MaxMrcNo(stored) == Success(top) by {
      MaxMrcNoAppendKey(head, 1, top, b);
    }
    assert Filter(stored, IsMrcEntry) == stored by {
      MrcKeyShape(MrcKey(top), top);
      assert stored[..1] == head;
    }
  }

  /** Java `int` addition wraps: after replica number 2147483647 (`top`),
      the next key is "mrc-2147483648" (`bottom`, see Wrap32Overflow), and
      since that number never becomes the maximum, the next MRC after it gets
      the very same key: two replicas end up under one key. */
  lemma WrappedReplicaKeyRepeats(top: int, bottom: int, a: string, b: string, c: string, d: string)
    requires 1 <= top && InInt(top) && bottom == Wrap32(top + 1) && bottom <= top
    requires c != a && c != b && d != a && d != b && d != c
    ensures var stored := [KeyValuePair(MrcAttr, a), KeyValuePair(MrcKey(top), b)];
      var first := stored + [KeyValuePair(MrcKey(bottom), c)];
      && VolumeData(stored, [KeyValuePair(MrcAttr, c)]) == Success(first)
      && VolumeData(first, [KeyValuePair(MrcAttr, d)]) == Success(first + [KeyValuePair(MrcKey(bottom), d)])
  {
    WrappedReplicaKey(top, bottom, a, b, c);
    var stored := [KeyValuePair(MrcAttr, a), KeyValuePair(MrcKey(top), b)];
    var first := stored + [KeyValuePair(MrcKey(bottom), c)];
    ThreeEntriesNotListing(MrcAttr, a, MrcKey(top), b, MrcKey(bottom), c, d);
    VolumeDataOnlyReplicas(first, top, d);
  }

  lemma ThreeEntriesNotListing(k1: string, a: string, k2: string, b: string, k3: string, c: string, d: string)
    requires d != a && d != b && d != c
    ensures !ListsMrcUuid([KeyValuePair(k1, a), KeyValuePair(k2, b)] + [KeyValuePair(k3, c)], d)
  {
    var s := [KeyValuePair(k1, a), KeyValuePair(k2, b)] + [KeyValuePair(k3, c)];
    assert s == [KeyValuePair(k1, a), KeyValuePair(k2, b), KeyValuePair(k3, c)];
  }

  // ---------------------------------------------------------------------
  // The merge, step by step as registerServices builds it

  /** Collects the `static.` attributes of the stored entry into a map. */
  method CollectStaticAttrs(data: seq<KeyValuePair>) returns (attrs: map<string, string>)
    ensures attrs == StaticAttrs(data)
  {
    attrs := map[];
    var i := 0;
    while i < |data|
      invariant 0 <= i <= |data|
      invariant attrs == StaticAttrs(data[..i])
    {
      assert data[..i + 1][..i] == data[..i];
      if IsStaticKey(data[i].key) {
        attrs := attrs[data[i].key := data[i].value];
      }
      i := i + 1;
    }
    assert data[..i] == data;
  }

  /** Emits the entries of a map in the order its iteration yields them,
      which is left unspecified. */
  method ListStaticAttrs(attrs: map<string, string>) returns (s: seq<KeyValuePair>)
    ensures IsListing(s, attrs)
  {
    s := [];
    var remaining := attrs.Keys;
    while remaining != {}
      invariant remaining <= attrs.Keys
      invariant |s| + |remaining| == |attrs|
      invariant KeysDistinct(s)
      invariant forall i :: 0 <= i < |s| ==>
        s[i].key in attrs && s[i].key !in remaining && attrs[s[i].key] == s[i].value
      invariant forall k :: k in attrs && k !in remaining ==> exists i :: 0 <= i < |s| && s[i].key == k
      decreases remaining
    {
      var k :| k in remaining;
      ghost var before := s;
      s := s + [KeyValuePair(k, attrs[k])];
      assert forall i :: 0 <= i < |before| ==> s[i] == before[i];
      assert s[|before|].key == k;
      remaining := remaining - {k};
    }
  }

  /** The value of the registration's first "mrc" entry. */
  method FindMrcUuid(regData: seq<KeyValuePair>) returns (mrcUuid: Option<string>)
    ensures mrcUuid == FindMrc(regData)
  {
    mrcUuid := None;
    var i := 0;
    while i < |regData|
      invariant 0 <= i <= |regData|
      invariant FindMrc(regData) == FindMrc(regData[i..])
    {
      assert regData[i..][1..] == regData[i + 1..];
      if regData[i].key == MrcAttr {
        mrcUuid := Some(regData[i].value);
        break;
      }
      i := i + 1;
    }
  }

  /** What one pass over the stored entry yields: its replica entries,
      whether the registering MRC is among them, and the largest number. */
  datatype ReplicaScan = ReplicaScan(entries: seq<KeyValuePair>, contained: bool, maxMrcNo: int)

  method ScanStoredReplicas(oldData: seq<KeyValuePair>, mrcUuid: Option<string>)
    returns (r: Result<ReplicaScan, MergeError>)
    ensures MaxMrcNo(oldData).Failure? ==> r == Failure(MaxMrcNo(oldData).error)
    ensures MaxMrcNo(oldData).Success? ==>
      r == Success(ReplicaScan(Filter(oldData, IsMrcEntry),
                               mrcUuid.Some? && ListsMrcUuid(oldData, mrcUuid.value),
                               MaxMrcNo(oldData).value))
  {
    var maxMrcNo := 1;
    var contained := false;
    var data: seq<KeyValuePair> := [];
    var i := 0;
    while i < |oldData|
      invariant 0 <= i <= |oldData|
      invariant MaxMrcNo(oldData[..i]) == Success(maxMrcNo)
      invariant contained == (mrcUuid.Some? && ListsMrcUuid(oldData[..i], mrcUuid.value))
      invariant data == Filter(oldData[..i], IsMrcEntry)
    {
      var kv := oldData[i];
      assert oldData[..i + 1][..i] == oldData[..i];
      assert oldData[..i + 1] == oldData[..i] + [kv];
      if mrcUuid.Some? {
        ListsMrcUuidAppend(oldData[..i], kv, mrcUuid.value);
      }
      if IsMrcKey(kv.key) {
        data := data + [kv];
        if mrcUuid == Some(kv.value) {
          contained := true;
        }
        if kv.key != MrcAttr {
          var no := ParseInt(MrcSuffix(kv.key));
          if no.None? {
            MaxMrcNoPrefixFailure(oldData, i + 1);
            return Failure(BadMrcSuffix(kv.key));
          }
          if no.value > maxMrcNo {
            maxMrcNo := no.value;
          }
        }
      }
      i := i + 1;
    }
    assert oldData[..i] == oldData;
    r := Success(ReplicaScan(data, contained, maxMrcNo));
  }

  /** Appends the registration's entries whose keys do not start with "mrc". */
  method AppendOtherEntries(data: seq<KeyValuePair>, regData: seq<KeyValuePair>)
    returns (r: seq<KeyValuePair>)
    ensures r == data + Filter(regData, IsOtherEntry)
  {
    r := data;
    var i := 0;
    while i < |regData|
      invariant 0 <= i <= |regData|
      invariant r == data + Filter(regData[..i], IsOtherEntry)
    {
      assert regData[..i + 1][..i] == regData[..i];
      if !IsMrcKey(regData[i].key) {
        r := r + [regData[i]];
      }
      i := i + 1;
    }
    assert regData[..i] == regData;
  }

  /** The data of a volume registered again (the volume branch of
      registerServices). */
  method MergeVolumeData(oldData: seq<KeyValuePair>, regData: seq<KeyValuePair>)
    returns (r: Result<seq<KeyValuePair>, MergeError>)
    ensures r == VolumeData(oldData, regData)
  {
    var mrcUuid := FindMrcUuid(regData);
    var scan := ScanStoredReplicas(oldData, mrcUuid);
    if scan.Failure? {
      return Failure(scan.error);
    }
    var data := scan.value.entries;
    assert data + [] == data;
    if !scan.value.contained {
      if mrcUuid.None? {
        return Failure(MissingMrcUuid);
      }
      data := data + [KeyValuePair(MrcKey(Wrap32(scan.value.maxMrcNo + 1)), mrcUuid.value)];
    }
    data := AppendOtherEntries(data, regData);
    r := Success(data);
  }

  /** The record to register for `reg`, given the entry the directory holds
      for its UUID (`stored`, None when the directory returned no service). */
  method MergeRegistration(stored: Option<Service>, reg: Service) returns (r: Result<Service, MergeError>)
    ensures r.Failure? <==> DynamicData(stored, reg).Failure?
    ensures r.Failure? ==> r.error == DynamicData(stored, reg).error
    ensures r.Success? ==> IsMergedRecord(stored, reg, r.value)
  {
    var currentVersion := 0;
    var staticAttrs: map<string, string> := map[];
    if stored.Some? {
      currentVersion := stored.value.version;
      staticAttrs := CollectStaticAttrs(stored.value.data);
    }
    if StatusAttr !in staticAttrs {
      staticAttrs := staticAttrs[StatusAttr := IntToString(ServiceStatusAvail)];
    }
    var data := ListStaticAttrs(staticAttrs);
    ghost var statics := data;
    if IsVolumeCase(stored, reg) {
      var rest := MergeVolumeData(stored.value.data, reg.data);
      if rest.Failure? {
        return Failure(rest.error);
      }
      data := data + rest.value;
    } else {
      data := data + reg.data;
    }
    assert data[..|statics|] == statics;
    r := Success(reg.(version := currentVersion, data := data));
  }

  /** The entry the directory holds, from its reply to the lookup by UUID. */
  function StoredService(reply: seq<Service>): Option<Service> {
    if |reply| == 0 then None else Some(reply[0])
  }

  /**
    One round of registerServices: every service the server reports is
    merged with the directory's entry for its UUID and sent back; the first
    merge that raises stops the round, after the records before it have been
    sent. `replies[i]` is the directory's reply to the lookup of
    `regs[i].uuid`, made after the records before it were registered, so it
    may already hold one of them.
   */
  method RegisterServices(regs: seq<Service>, replies: seq<seq<Service>>)
    returns (sent: seq<Service>, failure: Option<MergeError>)
    requires |replies| == |regs|
    ensures |sent| <= |regs|
    ensures forall i :: 0 <= i < |sent| ==>
      IsMergedRecord(StoredService(replies[i]), regs[i], sent[i])
    ensures failure.None? <==> |sent| == |regs|
    ensures failure.Some? ==>
      DynamicData(StoredService(replies[|sent|]), regs[|sent|]) == Failure(failure.value)
  {
    sent := [];
    var i := 0;
    while i < |regs|
      invariant 0 <= i <= |regs| && |sent| == i
      invariant forall j :: 0 <= j < i ==>
        IsMergedRecord(StoredService(replies[j]), regs[j], sent[j])
    {
      var reg := regs[i];
      var rec := MergeRegistration(StoredService(replies[i]), reg);
      if rec.Failure? {
        return sent, Some(rec.error);
      }
      sent := sent + [rec.value];
      i := i + 1;
    }
    failure := None;
  }

  // ---------------------------------------------------------------------
  // What a merged record promises

  /** A `static.` attribute of the stored entry is carried over with the
      value of its last occurrence. */
  lemma MergedKeepsStaticAttr(stored: Option<Service>, reg: Service, rec: Service, i: nat)
    requires IsMergedRecord(stored, reg, rec)
    requires stored.Some? && i < |stored.value.data| && IsStaticKey(stored.value.data[i].key)
    requires forall j :: i < j < |stored.value.data| ==> stored.value.data[j].key != stored.value.data[i].key
    ensures stored.value.data[i] in rec.data[..|RecordStatics(stored)|]
  {
    var kv := stored.value.data[i];
    var statics := RecordStatics(stored);
    var listing := rec.data[..|statics|];
    StaticAttrsLastValue(stored.value.data, i);
    assert kv.key in statics && statics[kv.key] == kv.value;
    var j :| 0 <= j < |listing| && listing[j].key == kv.key;
    assert listing[j] == kv;
  }

  /** Without a `static.status` in the stored entry, the record carries
      `static.status` = SERVICE_STATUS_AVAIL. */
  lemma MergedDefaultsStatus(stored: Option<Service>, reg: Service, rec: Service)
    requires IsMergedRecord(stored, reg, rec)
    requires stored.Some? ==> forall i :: 0 <= i < |stored.value.data| ==> stored.value.data[i].key != StatusAttr
    ensures KeyValuePair(StatusAttr, IntToString(ServiceStatusAvail)) in rec.data[..|RecordStatics(stored)|]
  {
    var statics := RecordStatics(stored);
    var listing := rec.data[..|statics|];
    if stored.Some? {
      StaticAttrsKeys(stored.value.data, StatusAttr);
    }
    assert statics[StatusAttr] == IntToString(ServiceStatusAvail);
    var j :| 0 <= j < |listing| && listing[j].key == StatusAttr;
    assert listing[j] == KeyValuePair(StatusAttr, IntToString(ServiceStatusAvail));
  }

  /** The attributes ahead of the dynamic data are `static.` attributes,
      each key once, and each is an entry of the stored record or the
      default status: nothing else of the stored record comes along. */
  lemma MergedStaticsOrigin(stored: Option<Service>, reg: Service, rec: Service, j: nat)
    requires IsMergedRecord(stored, reg, rec)
    requires j < |RecordStatics(stored)|
    ensures IsStaticKey(rec.data[j].key)
    ensures forall k :: 0 <= k < |RecordStatics(stored)| && k != j ==> rec.data[k].key != rec.data[j].key
    ensures || rec.data[j] == KeyValuePair(StatusAttr, IntToString(ServiceStatusAvail))
            || (stored.Some? && rec.data[j] in stored.value.data)
  {
    var statics := RecordStatics(stored);
    var listing := rec.data[..|statics|];
    assert listing[j] == rec.data[j];
    var key := rec.data[j].key;
    assert key in statics;
    if stored.Some? && key in StaticAttrs(stored.value.data) {
      StaticAttrsKeys(stored.value.data, key);
    }
    forall k | 0 <= k < |statics| && k != j
      ensures rec.data[k].key != key
    {
      assert listing[k] == rec.data[k];
    }
  }

  /** Outside the volume case, the registration's data follows the static
      attributes unchanged and in order. */
  lemma MergedOtherServiceData(stored: Option<Service>, reg: Service, rec: Service)
    requires IsMergedRecord(stored, reg, rec)
    requires !IsVolumeCase(stored, reg)
    ensures rec.data == rec.data[..|RecordStatics(stored)|] + reg.data
    ensures rec.version == StoredVersion(stored) && rec.uuid == reg.uuid
  {
    assert rec.data == rec.data[..|RecordStatics(stored)|] + rec.data[|RecordStatics(stored)|..];
  }
}
