/**
  `NTServiceConfig`, which turns a parsed configuration into a set of service names, and the check
  `NTService` makes against it before it starts or stops a service.
 */
module ServiceWhitelist {
  import opened Basics
  import opened Keys
  import opened Values
  import opened WideStrings

  // What the code takes from Windows and its C runtime.
  datatype Platform = Platform(
    lower: CaseMap,
    multiByteToWideChar: Bytes -> Wide,
    isValidName: Wide -> bool)

  const WHITELIST_KEY: Bytes := [0x77, 0x68, 0x69, 0x74, 0x65, 0x6C, 0x69, 0x73, 0x74]
  const W32TIME: Wide := [0x77, 0x33, 0x32, 0x74, 0x69, 0x6D, 0x65]
  const MAX_SERVICE_NAME_LENGTH := 256

  /** `Utils::MultibyteToWide(s.c_str())`: both the bytes and the result end at a terminator. */
  function MultibyteToWide(p: Platform, s: Bytes): Wide {
    CStr(p.multiByteToWideChar(CStr(s, 0)), 0)
  }

  /** The array a configuration lists its services in. */
  function WhitelistArray(root: Value): Option<map<nat, Value>> {
    match root.payload
    case Object(m) =>
      if WHITELIST_KEY in m && m[WHITELIST_KEY].payload.Array? then Some(m[WHITELIST_KEY].payload.elems) else None
    case _ => None
  }

  /** The name an entry of the array stands for; entries that are not strings or are empty stand for none. */
  function EntryName(p: Platform, entry: Value): Option<Wide> {
    match entry.payload
    case String(s) =>
      var w := MultibyteToWide(p, s);
      if w == [] then None else Some(w)
    case _ => None
  }

  predicate StandsFor(p: Platform, entry: Value, name: Wide) {
    EntryName(p, entry).Some? && SameName(p.lower, EntryName(p, entry).value, name)
  }

  ghost predicate ListedIn(p: Platform, m: map<nat, Value>, name: Wide) {
    exists i :: i in m && StandsFor(p, m[i], name)
  }

  /** Who is on the list a configuration asks for. */
  ghost predicate Listed(p: Platform, root: Value, name: Wide) {
    match WhitelistArray(root)
    case Some(m) => ListedIn(p, m, name)
    case None => SameName(p.lower, W32TIME, name)
  }

  /** The same letters but for their case, up to the first terminator of each. */
  predicate EqualButForCase(lower: CaseMap, s: Wide, t: Wide) {
    var a, b := CStr(s, 0), CStr(t, 0);
    |a| == |b| && forall k :: 0 <= k < |a| ==> lower(a[k]) == lower(b[k])
  }

  // An entry of the array is a string that is not empty and names the service.
  predicate Names(p: Platform, entry: Value, name: Wide) {
    && entry.payload.String?
    && var w := CStr(p.multiByteToWideChar(CStr(entry.payload.s, 0)), 0);
       w != [] && EqualButForCase(p.lower, w, name)
  }

  /**
    The decision, in letters: a configuration with an array under the key `whitelist` lists what an entry of that
    array names; any other lists `w32time`.
   */
  lemma ListedIs(p: Platform, root: Value, name: Wide)
    ensures var key := Ascii("whitelist");
            Listed(p, root, name) <==>
              if root.payload.Object? && key in root.payload.members && root.payload.members[key].payload.Array? then
                var entries := root.payload.members[key].payload.elems;
                exists i :: i in entries && Names(p, entries[i], name)
              else EqualButForCase(p.lower, Ascii("w32time"), name)
  {
    hide SameName, EqualButForCase, CStr;
    KeysAre();
    SameNameIs(p.lower, W32TIME, name);
    if WhitelistArray(root).Some? {
      var m := WhitelistArray(root).value;
      forall i | i in m ensures StandsFor(p, m[i], name) <==> Names(p, m[i], name) {
        if EntryName(p, m[i]).Some? {
          SameNameIs(p.lower, EntryName(p, m[i]).value, name);
        }
      }
    }
  }

  lemma KeysAre()
    ensures WHITELIST_KEY == Ascii("whitelist") && W32TIME == Ascii("w32time")
  {
  }

  lemma SameNameIs(lower: CaseMap, s: Wide, t: Wide)
    ensures SameName(lower, s, t) <==> EqualButForCase(lower, s, t)
  {
    hide CStr;
    var f, h := Folded(lower, s), Folded(lower, t);
    if f == h {
      forall k | 0 <= k < |f| ensures lower(CStr(s, 0)[k]) == lower(CStr(t, 0)[k]) {
        assert f[k] == h[k];
      }
    }
  }

  class NTServiceConfig {
    const p: Platform
    var whitelist: seq<Wide>

    ghost predicate Valid()
      reads this
    {
      Ordered(p.lower, whitelist)
    }

    /** `NTServiceConfig()` */
    constructor (p: Platform)
      ensures this.p == p && Valid()
      ensures forall x :: Contains(p.lower, whitelist, x) <==> SameName(p.lower, W32TIME, x)
    {
      this.p := p;
      whitelist := [];
      new;
      ApplyDefaults();
    }

    /** `NTServiceConfig(root)` */
    constructor FromJson(p: Platform, root: Value)
      ensures this.p == p && Valid()
      ensures forall x :: Contains(p.lower, whitelist, x) <==> Listed(p, root, x)
    {
      this.p := p;
      whitelist := [];
      new;
      var parsed := false;
      if !root.payload.Null? {
        parsed := ParseJSON(root);
      }
      if !parsed {
        ApplyDefaults();
      }
    }

    method ApplyDefaults()
      modifies this
      ensures Valid()
      ensures forall x :: Contains(p.lower, whitelist, x) <==> SameName(p.lower, W32TIME, x)
    {
      whitelist := [W32TIME];
      forall x ensures Contains(p.lower, whitelist, x) <==> SameName(p.lower, W32TIME, x) {
        ContainsMeaning(p.lower, whitelist, x);
        assert W32TIME in whitelist;
      }
    }

    /** Replaces the list if the configuration has one, and otherwise leaves it alone. */
    method ParseJSON(root: Value) returns (ok: bool)
      modifies this
      ensures ok <==> WhitelistArray(root).Some?
      ensures ok ==> Valid() && forall x :: Contains(p.lower, whitelist, x) <==> ListedIn(p, WhitelistArray(root).value, x)
      ensures !ok ==> whitelist == old(whitelist)
    {
      hide Contains, Ordered, ListedIn;
      if root.payload.Null? || !root.payload.Object? {
        return false;
      }
      var m := root.payload.members;
      if !(WHITELIST_KEY in m && m[WHITELIST_KEY].payload.Array?) {
        return false;
      }
      whitelist := ReadEntries(m[WHITELIST_KEY].payload.elems);
      return true;
    }

    /** The loop over the entries of the array, in index order. */
    method ReadEntries(entries: map<nat, Value>) returns (names: seq<Wide>)
      ensures Ordered(p.lower, names) && forall x :: Contains(p.lower, names, x) <==> ListedIn(p, entries, x)
    {
      hide Contains, SameName, EntryName, Sorted, StandsFor, Ordered, Holds, ListedAmong, ListedIn, StrictTotal, Ascending;
      IndexLessIsStrictTotal();
      var keys := Sorted(IndexLess, entries.Keys);
      names := [];
      HoldsNothing(p, entries);
      var k := 0;
      while k < |keys|
        invariant k <= |keys|
        invariant Ordered(p.lower, names) && Holds(p, names, entries, keys[..k])
      {
        ghost var before := names;
        names := AddEntry(names, entries[keys[k]]);
        HoldsNext(p, before, entries, keys, k, names);
        k := k + 1;
      }
      assert keys[..k] == keys;
      HoldsAll(p, names, entries, keys);
    }

    /** One turn of that loop. */
    method AddEntry(names: seq<Wide>, entry: Value) returns (more: seq<Wide>)
      requires Ordered(p.lower, names)
      ensures Ordered(p.lower, more)
      ensures forall x :: Contains(p.lower, more, x) <==> Contains(p.lower, names, x) || StandsFor(p, entry, x)
    {
      hide Contains, SameName, Ordered, Inserted;
      if !entry.payload.String? {
        return names;
      }
      var serviceStr := MultibyteToWide(p, entry.payload.s);
      if |serviceStr| == 0 {
        return names;
      }
      InsertedMeaning(p.lower, names, serviceStr);
      return Inserted(p.lower, names, serviceStr);
    }
  }

  /** Listed by an entry at one of these positions. */
  ghost predicate ListedAmong(p: Platform, m: map<nat, Value>, keys: seq<nat>, name: Wide) {
    exists i :: i in keys && i in m && StandsFor(p, m[i], name)
  }

  /** An ordered set that holds exactly what the entries at these positions list. */
  ghost predicate Holds(p: Platform, names: seq<Wide>, m: map<nat, Value>, keys: seq<nat>) {
    Ordered(p.lower, names) && forall x :: Contains(p.lower, names, x) <==> ListedAmong(p, m, keys, x)
  }

  lemma HoldsNothing(p: Platform, m: map<nat, Value>)
    ensures Ordered(p.lower, []) && Holds(p, [], m, [])
  {
  }

  lemma HoldsNext(p: Platform, names: seq<Wide>, m: map<nat, Value>, keys: seq<nat>, k: nat, more: seq<Wide>)
    requires k < |keys| && keys[k] in m && Holds(p, names, m, keys[..k]) && Ordered(p.lower, more)
    requires forall x :: Contains(p.lower, more, x) <==> Contains(p.lower, names, x) || StandsFor(p, m[keys[k]], x)
    ensures Holds(p, more, m, keys[..k + 1])
  {
    hide StandsFor, Contains, ListedAmong, Ordered;
    forall x ensures Contains(p.lower, more, x) <==> ListedAmong(p, m, keys[..k + 1], x) {
      ListedNext(p, m, keys, k, x);
    }
  }

  lemma HoldsAll(p: Platform, names: seq<Wide>, m: map<nat, Value>, keys: seq<nat>)
    requires Holds(p, names, m, keys) && forall i :: i in keys <==> i in m
    ensures Ordered(p.lower, names) && forall x :: Contains(p.lower, names, x) <==> ListedIn(p, m, x)
  {
    hide StandsFor, Contains, Ordered;
  }

  lemma ListedNext(p: Platform, m: map<nat, Value>, keys: seq<nat>, k: nat, x: Wide)
    requires k < |keys| && keys[k] in m
    ensures ListedAmong(p, m, keys[..k + 1], x) <==> ListedAmong(p, m, keys[..k], x) || StandsFor(p, m[keys[k]], x)
  {
    hide StandsFor;
    assert keys[..k + 1] == keys[..k] + [keys[k]];
    assert keys[k] in keys[..k + 1];
  }

  datatype NameCheck = Accepted | InvalidServiceName | AccessDenied

  class NTService {
    var config: NTServiceConfig?

    /** `IsWhitelisted` */
    method IsWhitelisted(serviceName: Wide) returns (found: bool)
      ensures found == (config != null && Contains(config.p.lower, config.whitelist, serviceName))
    {
      if config == null {
        return false;
      }
      return Contains(config.p.lower, config.whitelist, serviceName);
    }

    /** `ValidateNameArgument` */
    method ValidateNameArgument(p: Platform, serviceName: Wide, enforceWhitelist: bool) returns (r: NameCheck)
      ensures r == if !(1 <= |serviceName| <= 256) || !p.isValidName(CStr(serviceName, 0)) then
                     InvalidServiceName
                   else if enforceWhitelist && (config == null || !Contains(config.p.lower, config.whitelist, CStr(serviceName, 0))) then
                     AccessDenied
                   else Accepted
    {
      var nameLength := |serviceName|;
      if nameLength == 0 || nameLength > MAX_SERVICE_NAME_LENGTH {
        return InvalidServiceName;
      }
      if !p.isValidName(CStr(serviceName, 0)) {
        return InvalidServiceName;
      }
      if enforceWhitelist {
        var listed := IsWhitelisted(CStr(serviceName, 0));
        if !listed {
          return AccessDenied;
        }
      }
      return Accepted;
    }
  }

  lemma SameCStr(lower: CaseMap, s: Wide, t: Wide)
    ensures SameName(lower, s, CStr(t, 0)) <==> SameName(lower, s, t)
  {
    CStrAgain(t);
  }

  lemma {:induction false} CStrAgain(s: Wide)
    ensures CStr(CStr(s, 0), 0) == CStr(s, 0)
  {
    if s != [] && s[0] != 0 {
      assert CStr(s, 0)[1..] == CStr(s[1..], 0);
      CStrAgain(s[1..]);
    }
  }

  /**
    From configuration to decision: with a service built from a configuration, a syntactically valid
    name passes the check exactly when it equals, ignoring case, a non-empty string of the
    `whitelist` array, whatever else the array holds; without such an array only `w32time` passes.
   */
  method CheckConfigured(p: Platform, root: Value, serviceName: Wide) returns (r: NameCheck)
    ensures r == if !(1 <= |serviceName| <= 256) || !p.isValidName(CStr(serviceName, 0)) then
                   InvalidServiceName
                 else if Listed(p, root, serviceName) then Accepted
                 else AccessDenied
  {
    hide Contains, SameName, Listed, CStr, Ordered;
    var config := new NTServiceConfig.FromJson(p, root);
    var service := new NTService;
    service.config := config;
    r := service.ValidateNameArgument(p, serviceName, true);
    ListedCStr(p, root, serviceName);
  }

  lemma ListedCStr(p: Platform, root: Value, name: Wide)
    ensures Listed(p, root, CStr(name, 0)) <==> Listed(p, root, name)
  {
    hide SameName, EntryName;
    forall s ensures SameName(p.lower, s, CStr(name, 0)) <==> SameName(p.lower, s, name) {
      SameCStr(p.lower, s, name);
    }
  }
}
