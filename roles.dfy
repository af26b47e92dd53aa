/** The role layer: application roles mapped to discovered thermometers,
    with the mapping kept in a persistent store, the list of discovered
    thermometers no role is mapped to, and the last temperatures copied into
    the assigned roles. */
module RoleRegistry {
  import opened Wrappers
  import opened RomCodes
  import opened RomCodeFacts
  import opened Temperatures
  import opened DeviceFamilies
  import opened ThermometerRecords
  import opened Decoding
  import opened BusEnv
  import opened RomCodeOrder
  import opened Registry
  import opened RooOneWire
  import opened Roles

  /** The id and name of one application role. */
  datatype Spec = Spec(id: int, name: string)

  /** The code the store holds for `id`; the unknown code when it holds none. */
  function StoredCode(store: map<int, RomCode>, id: int): RomCode {
    if id in store then store[id] else UnknownCode
  }

  /** The codes of `codes`, in their order, that no role is mapped to. */
  function UnassignedIn(codes: seq<RomCode>, mapped: map<RomCode, int>): seq<RomCode> {
    if codes == [] then []
    else
      var last := codes[|codes| - 1];
      UnassignedIn(codes[..|codes| - 1], mapped) + (if last in mapped then [] else [last])
  }

  /** A code is listed as unassigned exactly when it is one of the codes and
      no role is mapped to it. */
  lemma {:induction false} UnassignedMembers(codes: seq<RomCode>, mapped: map<RomCode, int>, c: RomCode)
    ensures c in UnassignedIn(codes, mapped) <==> c in codes && c !in mapped
  {
    if codes != [] {
      var init := codes[..|codes| - 1];
      UnassignedMembers(init, mapped, c);
      assert codes == init + [codes[|codes| - 1]];
    }
  }

  /** The unassigned list of an ascending list of codes is ascending. */
  lemma {:induction false} UnassignedAscending(codes: seq<RomCode>, mapped: map<RomCode, int>)
    requires StrictlyAscending(codes)
    ensures StrictlyAscending(UnassignedIn(codes, mapped))
  {
    if codes != [] {
      var init := codes[..|codes| - 1];
      var last := codes[|codes| - 1];
      UnassignedAscending(init, mapped);
      var u := UnassignedIn(init, mapped);
      forall k | 0 <= k < |u|
        ensures u[k].Less(last)
      {
        UnassignedMembers(init, mapped, u[k]);
        var j :| 0 <= j < |init| && init[j] == u[k];
        assert codes[j] == u[k];
      }
    }
  }

  /** The codes the store holds for the roles of `rs`, the unknown code
      aside. */
  function StoredCodes(store: map<int, RomCode>, rs: seq<ThermometerRole>): set<RomCode> {
    set i | 0 <= i < |rs| && !StoredCode(store, rs[i].id).IsUnknown() :: StoredCode(store, rs[i].id)
  }

  /** Whether the store holds no code for some role of `rs`. */
  predicate SomeUnstored(store: map<int, RomCode>, rs: seq<ThermometerRole>) {
    exists i :: 0 <= i < |rs| && StoredCode(store, rs[i].id).IsUnknown()
  }

  /** `id` is the id of the last role of `rs`, in order, whose stored code
      is `c`. */
  ghost predicate LastHolder(store: map<int, RomCode>, rs: seq<ThermometerRole>, c: RomCode, id: int) {
    exists i :: 0 <= i < |rs| && rs[i].id == id && StoredCode(store, rs[i].id) == c &&
      forall j :: i < j < |rs| ==> StoredCode(store, rs[j].id) != c
  }

  /** The mapping from codes to ids after the roles `rs` are loaded from the
      store into `before`: the unknown code is dropped when some role has no
      stored code, every stored code maps to the id of the last role holding
      it, and every other entry is kept. */
  ghost predicate Loaded(m: map<RomCode, int>, before: map<RomCode, int>, store: map<int, RomCode>, rs: seq<ThermometerRole>) {
    && (forall c :: c in m <==>
          if c.IsUnknown() then c in before && !SomeUnstored(store, rs)
          else c in before || c in StoredCodes(store, rs))
    && (forall c :: c in m && c in StoredCodes(store, rs) ==> LastHolder(store, rs, c, m[c]))
    && (forall c :: c in m && c !in StoredCodes(store, rs) ==> m[c] == before[c])
  }

  /** The role layer over one driver. */
  class ThermometerRoles {
    const onewire: OneWire
    /** The persistent mapping from role ids to codes. */
    var store: map<int, RomCode>
    /** The position of the role with each id. */
    var idxById: map<int, nat>
    /** For assigned codes, the id of the role they are assigned to. */
    var idByRomCode: map<RomCode, int>
    /** The discovered codes no role is mapped to, as last refreshed. */
    var unassigned: seq<RomCode>
    var roles: seq<ThermometerRole>
    var eventListeners: set<object>
    /** The object registered with the registry to forward its events here. */
    var listener: Listener?

    /** The roles are distinct objects, each id's position holds a role with
        that id, and the forwarding listener points back here. */
    ghost predicate Valid()
      reads this
    {
      && (forall i, j :: 0 <= i < j < |roles| ==> roles[i] != roles[j])
      && (forall id :: id in idxById ==> idxById[id] < |roles| && roles[idxById[id]].id == id)
      && listener != null && listener.owner == this
    }

    /** The role objects, which the layer updates in place. */
    function RoleObjects(): set<ThermometerRole>
      reads this
    {
      set r | r in roles
    }

    /** Creates one role per spec, in order, indexes them by id (a later spec
        with the same id wins), registers the forwarding listener with the
        registry and loads the assignments from `store`. */
    constructor(onewire: OneWire, store: map<int, RomCode>, specs: seq<Spec>)
      modifies onewire.thermometers
      ensures Valid() && this.onewire == onewire && this.store == store
      ensures |roles| == |specs| && fresh(RoleObjects())
      ensures forall i :: 0 <= i < |specs| ==> roles[i].id == specs[i].id && roles[i].name == specs[i].name
      ensures forall i :: 0 <= i < |specs| ==> roles[i].romCode == StoredCode(store, specs[i].id)
      ensures forall i :: 0 <= i < |specs| ==> roles[i].lastReading == NoReading
      ensures forall id :: id in idxById <==> exists i :: 0 <= i < |specs| && specs[i].id == id
      ensures forall id :: id in idxById ==> forall j :: idxById[id] < j < |specs| ==> specs[j].id != id
      ensures Loaded(idByRomCode, map[], store, roles)
      ensures unassigned == [] && eventListeners == {}
      ensures fresh(listener) && onewire.thermometers.listeners == old(onewire.thermometers.listeners) + {listener}
      ensures onewire.thermometers.RomCodes() == old(onewire.thermometers.RomCodes())
      ensures onewire.thermometers.thermometers == old(onewire.thermometers.thermometers)
      ensures onewire.thermometers.pendingConversion == old(onewire.thermometers.pendingConversion)
      ensures onewire.thermometers.lastCompletedConversion == old(onewire.thermometers.lastCompletedConversion)
      ensures onewire.thermometers.parasite == old(onewire.thermometers.parasite)
    {
      this.onewire := onewire;
      this.store := map[];
      idByRomCode := map[];
      unassigned := [];
      eventListeners := {};
      listener := null;
      var rs, index := CreateRoles(specs);
      roles := rs;
      idxById := index;
      new;
      listener := new Listener(this);
      onewire.thermometers.AddEventListener(listener);
      SetStore(store);
    }

    /** Loads the assignments from `store`: a role with a stored code is
        assigned it and the code is mapped to the role's id; for a role
        without one, the unknown code is unmapped and the role left as it
        was. */
    method SetStore(store: map<int, RomCode>)
      requires Valid()
      modifies this, RoleObjects()
      ensures Valid() && this.store == store
      ensures roles == old(roles) && idxById == old(idxById) && listener == old(listener)
      ensures unassigned == old(unassigned) && eventListeners == old(eventListeners)
      ensures forall i :: 0 <= i < |roles| ==> roles[i].lastReading == old(roles[i].lastReading)
      ensures forall i :: 0 <= i < |roles| ==>
                roles[i].romCode == if StoredCode(store, roles[i].id).IsUnknown() then old(roles[i].romCode)
                                    else StoredCode(store, roles[i].id)
      ensures Loaded(idByRomCode, old(idByRomCode), store, roles)
    {
      this.store := store;
      ghost var before := idByRomCode;
      ghost var rs := roles;
      ghost var codes0 := seq(|roles|, k reads this, roles requires 0 <= k < |roles| => roles[k].romCode);
      ghost var readings0 := seq(|roles|, k reads this, roles requires 0 <= k < |roles| => roles[k].lastReading);
      LoadedNone(before, store, rs);
      for i := 0 to |roles|
        invariant Valid() && this.store == store
        invariant roles == old(roles) && idxById == old(idxById) && listener == old(listener)
        invariant unassigned == old(unassigned) && eventListeners == old(eventListeners)
        invariant RolesLoaded(codes0, readings0, i)
        invariant Loaded(idByRomCode, before, store, rs[..i])
      {
        ghost var m := idByRomCode;
        LoadOne(i, codes0, readings0);
        LoadedStep(m, idByRomCode, before, store, rs, i);
      }
      assert rs[..|rs|] == rs;
    }

    /** The roles before position `n` carry the codes loaded from the store,
        the others the codes `codes0`; all keep the readings `readings0`. */
    ghost predicate RolesLoaded(codes0: seq<RomCode>, readings0: seq<Reading>, n: nat)
      reads this, roles
    {
      && |codes0| == |roles| == |readings0|
      && forall k :: 0 <= k < |roles| ==>
           && roles[k].lastReading == readings0[k]
           && roles[k].romCode == if k >= n || StoredCode(store, roles[k].id).IsUnknown() then codes0[k]
                                  else StoredCode(store, roles[k].id)
    }

    /** Loads the assignment of the role at `idx` from the store. */
    method LoadOne(idx: nat, ghost codes0: seq<RomCode>, ghost readings0: seq<Reading>)
      requires Valid() && idx < |roles| && RolesLoaded(codes0, readings0, idx)
      modifies this, roles[idx]
      ensures Valid() && store == old(store)
      ensures roles == old(roles) && idxById == old(idxById) && listener == old(listener)
      ensures unassigned == old(unassigned) && eventListeners == old(eventListeners)
      ensures RolesLoaded(codes0, readings0, idx + 1)
      ensures var c := StoredCode(store, roles[idx].id);
              idByRomCode == if c.IsUnknown() then old(idByRomCode) - {c} else old(idByRomCode)[c := roles[idx].id]
    {
      var t := roles[idx];
      var romCode := StoredCode(store, t.id);
      if romCode.IsUnknown() {
        idByRomCode := idByRomCode - {romCode};
      } else {
        t.Assign(romCode);
        idByRomCode := idByRomCode[romCode := t.id];
      }
    }

    /** The role with id `id`; asking for an id never registered is a checked
        error. */
    function ThermometerRoleById(id: int): (r: ThermometerRole)
      reads this
      requires Valid() && id in idxById
      ensures r in roles && r.id == id
    {
      roles[idxById[id]]
    }

    /** The temperature of the role with id `id`: unknown unless the role is
        assigned, and then that of its thermometer. */
    function TemperatureById(id: int): Temperature
      reads this, RoleObjects(), onewire.thermometers
      requires Valid() && id in idxById
    {
      var t := ThermometerRoleById(id);
      if t.IsAssigned() then TemperatureByRomCode(t.romCode) else None
    }

    /** The temperature of the thermometer `c`: unknown when the registry has
        no such thermometer, and otherwise its record's temperature. */
    function TemperatureByRomCode(c: RomCode): Temperature
      reads onewire.thermometers
    {
      match onewire.thermometers.ThermometerByRomCode(c)
      case None => None
      case Some(t) => t.temperature
    }

    /** A temperature is known by address only for a thermometer the registry
        lists. Once the registry's table is the refresh of `known` after a
        conversion, it is known for a device whose read and decoding
        succeeded exactly when the device is not a MAX31850, and it is then
        the decoded temperature. */
    lemma TemperatureByRomCodeAfterRefresh(known: map<RomCode, Record>, bus: Bus, c: RomCode)
      requires onewire.thermometers.Valid() && onewire.thermometers.thermometers == Refreshed(known, bus)
      ensures TemperatureByRomCode(c).Some? ==> c in onewire.thermometers.RomCodes() && c in known
      ensures c in known && ScratchpadRead(bus.answers(c)).Some? && Init(c, bus.answers(c).bytes, true).Some? ==>
                && TemperatureByRomCode(c) == Init(c, bus.answers(c).bytes, true).value.temperature
                && (TemperatureByRomCode(c).Some? <==> Init(c, bus.answers(c).bytes, true).value.family != MAX31850)
    {
      onewire.thermometers.LookupAgreesWithList(c);
      RefreshedFacts(known, bus, c);
    }

    /** Every assigned role whose thermometer has a known temperature holds
        it as its last reading, stamped with the registry's last reading
        time. */
    ghost predicate ReadingsCurrent()
      reads this, RoleObjects(), onewire.thermometers
    {
      forall i :: 0 <= i < |roles| ==>
        roles[i].IsAssigned() && TemperatureByRomCode(roles[i].romCode).Some? ==>
          roles[i].lastReading == Reading(TemperatureByRomCode(roles[i].romCode), onewire.thermometers.LastReadingTime())
    }

    /** Once the readings are current, a known temperature asked for by role
        id belongs to an assigned role and is the last reading that role
        holds. */
    lemma TemperatureByIdIsLastReading(id: int)
      requires Valid() && id in idxById && ReadingsCurrent()
      ensures TemperatureById(id).Some? ==> ThermometerRoleById(id).IsAssigned()
      ensures TemperatureById(id).Some? ==>
                ThermometerRoleById(id).lastReading == Reading(TemperatureById(id), onewire.thermometers.LastReadingTime())
    {
      assert roles[idxById[id]] == ThermometerRoleById(id);
    }

    /** `update`: the driver's update. When no conversion was pending, the
        registry tells its listeners that discovery completed, and this
        layer's forwarding listener, when still registered, has the
        unassigned list refreshed from the reconciled registry. Otherwise
        the layer is left as it was. */
    method Update(now: Uptime, bus: Bus)
      requires Valid() && onewire.thermometers.Valid()
      modifies this, onewire.thermometers
      ensures Valid() && onewire.thermometers.Valid()
      ensures exists ok :: UpdateEffect(onewire.thermometers, now, bus, ok)
      ensures !old(onewire.thermometers.IsConversionPending()) && listener in old(onewire.thermometers.listeners) ==>
                UnassignedRefreshed()
      ensures old(onewire.thermometers.IsConversionPending()) || listener !in old(onewire.thermometers.listeners) ==>
                unchanged(this)
    {
      var wasPending := onewire.thermometers.IsConversionPending();
      var ok := onewire.Update(now, bus);
      if !wasPending && listener in onewire.thermometers.listeners {
        listener.DiscoveryCompleted();
      }
      assert UpdateEffect(onewire.thermometers, now, bus, ok);
    }

    /** The conversion deadline passing while this layer listens: the
        registry re-reads its thermometers as its `ConversionCompleted` says
        and then tells its listeners; this layer's forwarding listener, when
        still registered, has the new temperatures copied into the assigned
        roles. */
    method OnConversionDeadline(bus: Bus)
      requires Valid() && onewire.thermometers.Valid()
      modifies onewire.thermometers, RoleObjects()
      ensures onewire.thermometers.Valid()
      ensures onewire.thermometers.LastReadingTime() == old(onewire.thermometers.GetPendingConversionTime())
      ensures !onewire.thermometers.IsConversionPending()
      ensures onewire.thermometers.RomCodes() == old(onewire.thermometers.RomCodes())
      ensures onewire.thermometers.thermometers == Refreshed(old(onewire.thermometers.thermometers), bus)
      ensures onewire.thermometers.listeners == old(onewire.thermometers.listeners)
      ensures onewire.thermometers.parasite == old(onewire.thermometers.parasite)
      ensures listener in old(onewire.thermometers.listeners) ==> TemperaturesCopied() && ReadingsCurrent()
      ensures listener !in old(onewire.thermometers.listeners) ==> unchanged(RoleObjects())
    {
      onewire.thermometers.ConversionCompleted(bus);
      if listener in onewire.thermometers.listeners {
        listener.ConversionCompleted();
      }
    }

    /** The unassigned list is the registry's codes, in order, that no role is
        mapped to; nothing else changes. */
    twostate predicate UnassignedRefreshed()
      reads this, onewire.thermometers
    {
      && unassigned == UnassignedIn(onewire.thermometers.RomCodes(), idByRomCode)
      && roles == old(roles) && idxById == old(idxById) && idByRomCode == old(idByRomCode)
      && store == old(store) && eventListeners == old(eventListeners) && listener == old(listener)
    }

    /** The unassigned list is the registry's codes, in order, that no role
        is mapped to. */
    ghost predicate UnassignedCurrent()
      reads this, onewire.thermometers
    {
      unassigned == UnassignedIn(onewire.thermometers.RomCodes(), idByRomCode)
    }

    /** A current unassigned list is strictly ascending and holds exactly the
        registry's thermometers that no role is mapped to. */
    lemma UnassignedCurrentFacts(c: RomCode)
      requires onewire.thermometers.Valid() && UnassignedCurrent()
      ensures StrictlyAscending(unassigned)
      ensures c in unassigned <==> c in onewire.thermometers.RomCodes() && c !in idByRomCode
    {
      UnassignedAscending(onewire.thermometers.RomCodes(), idByRomCode);
      UnassignedMembers(onewire.thermometers.RomCodes(), idByRomCode, c);
    }

    /** Rebuilds the unassigned list from the registry, in its order. */
    method RefreshUnassignedThermometers()
      modifies this
      ensures UnassignedRefreshed()
    {
      unassigned := [];
      var codes := onewire.thermometers.RomCodes();
      var i := 0;
      while i < onewire.thermometers.Count()
        invariant i <= |codes| && unassigned == UnassignedIn(codes[..i], idByRomCode)
        invariant roles == old(roles) && idxById == old(idxById) && idByRomCode == old(idByRomCode)
        invariant store == old(store) && eventListeners == old(eventListeners) && listener == old(listener)
      {
        var romCode := onewire.thermometers.RomCodeAt(i);
        assert codes[..i + 1][..i] == codes[..i];
        if romCode !in idByRomCode {
          unassigned := unassigned + [romCode];
        }
        i := i + 1;
      }
      assert codes[..i] == codes;
    }

    /** Assigns the role `id` to the thermometer `r`, which no role may be
        mapped to yet: the role gets the code, the code maps to `id`, the
        store remembers it and the unassigned list no longer holds it. The
        code the role had before stays mapped. */
    method Assign(id: int, r: RomCode)
      requires Valid() && id in idxById && r !in idByRomCode
      modifies this, roles[idxById[id]]
      ensures Valid()
      ensures roles == old(roles) && idxById == old(idxById) && eventListeners == old(eventListeners)
      ensures ThermometerRoleById(id).romCode == r
      ensures ThermometerRoleById(id).lastReading == old(ThermometerRoleById(id).lastReading)
      ensures idByRomCode == old(idByRomCode)[r := id]
      ensures store == old(store)[id := r] && listener == old(listener)
      ensures unassigned == UnassignedIn(onewire.thermometers.RomCodes(), idByRomCode)
      ensures r !in unassigned
    {
      roles[idxById[id]].Assign(r);
      idByRomCode := idByRomCode[r := id];
      store := store[id := r];
      RefreshUnassignedThermometers();
      UnassignedMembers(onewire.thermometers.RomCodes(), idByRomCode, r);
    }

    /** Unassigns the role `id` if it is assigned: its code is unmapped, the
        role cleared, the store entry removed and the unassigned list
        refreshed. An unassigned role is left alone and nothing changes. */
    method Unassign(id: int)
      requires Valid() && id in idxById
      modifies this, roles[idxById[id]]
      ensures Valid()
      ensures roles == old(roles) && idxById == old(idxById) && eventListeners == old(eventListeners)
      ensures ThermometerRoleById(id).lastReading == old(ThermometerRoleById(id).lastReading)
      ensures old(ThermometerRoleById(id).IsAssigned()) ==>
                && !ThermometerRoleById(id).IsAssigned()
                && idByRomCode == old(idByRomCode) - {old(ThermometerRoleById(id).romCode)}
                && store == old(store) - {id}
                && unassigned == UnassignedIn(onewire.thermometers.RomCodes(), idByRomCode)
                && listener == old(listener)
      ensures !old(ThermometerRoleById(id).IsAssigned()) ==> unchanged(this) && unchanged(ThermometerRoleById(id))
    {
      var t := roles[idxById[id]];
      if t.IsAssigned() {
        idByRomCode := idByRomCode - {t.romCode};
        t.Unassign();
        store := store - {id};
        RefreshUnassignedThermometers();
      }
    }

    /** Each assigned role whose thermometer has a known temperature gets it
        as its last reading, stamped with the registry's last reading time;
        every other role keeps its reading, and no role changes its code. */
    twostate predicate TemperaturesCopied()
      reads this, RoleObjects(), onewire.thermometers
    {
      && roles == old(roles)
      && (forall i :: 0 <= i < |roles| ==> roles[i].romCode == old(roles[i].romCode))
      && (forall i :: 0 <= i < |roles| ==>
            roles[i].lastReading ==
              if roles[i].IsAssigned() && TemperatureByRomCode(roles[i].romCode).Some?
              then Reading(TemperatureByRomCode(roles[i].romCode), onewire.thermometers.LastReadingTime())
              else old(roles[i].lastReading))
    }

    /** Copies the last temperatures into the assigned roles. */
    method UpdateTemperatures()
      requires Valid()
      modifies RoleObjects()
      ensures TemperaturesCopied()
      ensures ReadingsCurrent()
    {
      for i := 0 to |roles|
        invariant forall k :: 0 <= k < |roles| ==> roles[k].romCode == old(roles[k].romCode)
        invariant forall k :: 0 <= k < i ==>
                    roles[k].lastReading ==
                      if roles[k].IsAssigned() && TemperatureByRomCode(roles[k].romCode).Some?
                      then Reading(TemperatureByRomCode(roles[k].romCode), onewire.thermometers.LastReadingTime())
                      else old(roles[k].lastReading)
        invariant forall k :: i <= k < |roles| ==> roles[k].lastReading == old(roles[k].lastReading)
      {
        var role := roles[i];
        if !role.IsAssigned() {
          continue;
        }
        var t := onewire.thermometers.ThermometerByRomCode(role.romCode);
        if t.None? || t.value.temperature.None? {
          continue;
        }
        role.SetLastReading(t.value.temperature, onewire.thermometers.LastReadingTime());
      }
    }

    /** Handles the registry's discovery event: the unassigned list is
        refreshed before the role listeners would be told. */
    method DiscoveryCompleted()
      modifies this
      ensures UnassignedRefreshed()
    {
      RefreshUnassignedThermometers();
    }

    /** Handles the registry's conversion event: the temperatures are copied
        before the role listeners would be told. */
    method ConversionCompleted()
      requires Valid()
      modifies RoleObjects()
      ensures TemperaturesCopied()
      ensures ReadingsCurrent()
    {
      UpdateTemperatures();
    }

    function RolesCount(): nat
      reads this
    {
      |roles|
    }

    function RoleAt(idx: nat): ThermometerRole
      reads this
      requires idx < RolesCount()
    {
      roles[idx]
    }

    /** A copy of the unassigned list. */
    function Unassigned(): seq<RomCode>
      reads this
    {
      unassigned
    }

    /** Registers a listener; registering one twice is a checked error. */
    method AddEventListener(l: object)
      requires l !in eventListeners
      modifies this
      ensures eventListeners == old(eventListeners) + {l}
      ensures roles == old(roles) && idxById == old(idxById) && idByRomCode == old(idByRomCode)
      ensures store == old(store) && unassigned == old(unassigned) && listener == old(listener)
    {
      eventListeners := eventListeners + {l};
    }

    /** Unregisters a listener, if it was registered. */
    method RemoveEventListener(l: object)
      modifies this
      ensures eventListeners == old(eventListeners) - {l}
      ensures roles == old(roles) && idxById == old(idxById) && idByRomCode == old(idByRomCode)
      ensures store == old(store) && unassigned == old(unassigned) && listener == old(listener)
    {
      eventListeners := eventListeners - {l};
    }

    /** The destructor: unregisters the forwarding listener from the registry. */
    method Destroy()
      requires Valid()
      modifies onewire.thermometers
      ensures onewire.thermometers.listeners == old(onewire.thermometers.listeners) - {listener}
      ensures onewire.thermometers.RomCodes() == old(onewire.thermometers.RomCodes())
      ensures onewire.thermometers.thermometers == old(onewire.thermometers.thermometers)
      ensures onewire.thermometers.pendingConversion == old(onewire.thermometers.pendingConversion)
      ensures onewire.thermometers.lastCompletedConversion == old(onewire.thermometers.lastCompletedConversion)
      ensures onewire.thermometers.parasite == old(onewire.thermometers.parasite)
    {
      onewire.thermometers.RemoveEventListener(listener);
    }
  }

  /** Forwards the registry's events one-to-one to the owning role layer. */
  class Listener {
    const owner: ThermometerRoles

    constructor(owner: ThermometerRoles)
      ensures this.owner == owner
    {
      this.owner := owner;
    }

    method DiscoveryCompleted()
      modifies owner
      ensures owner.UnassignedRefreshed()
    {
      owner.DiscoveryCompleted();
    }

    method ConversionCompleted()
      requires owner.Valid()
      modifies owner.RoleObjects()
      ensures owner.TemperaturesCopied() && owner.ReadingsCurrent()
    {
      owner.ConversionCompleted();
    }
  }

  /** One new, unassigned role per spec, in order, and the position of each
      id: that of the last spec with the id. */
  method CreateRoles(specs: seq<Spec>) returns (rs: seq<ThermometerRole>, index: map<int, nat>)
    ensures |rs| == |specs|
    ensures forall k :: 0 <= k < |rs| ==> fresh(rs[k])
    ensures forall k, l :: 0 <= k < l < |rs| ==> rs[k] != rs[l]
    ensures forall k :: 0 <= k < |rs| ==> rs[k].id == specs[k].id && rs[k].name == specs[k].name
    ensures forall k :: 0 <= k < |rs| ==> rs[k].romCode == UnknownCode && rs[k].lastReading == NoReading
    ensures forall id :: id in index <==> exists k :: 0 <= k < |specs| && specs[k].id == id
    ensures forall id :: id in index ==> index[id] < |specs| && specs[index[id]].id == id
    ensures forall id :: id in index ==> forall j :: index[id] < j < |specs| ==> specs[j].id != id
  {
    rs := [];
    index := map[];
    for i := 0 to |specs|
      invariant |rs| == i
      invariant forall k :: 0 <= k < i ==> fresh(rs[k])
      invariant forall k, l :: 0 <= k < l < i ==> rs[k] != rs[l]
      invariant forall k :: 0 <= k < i ==> rs[k].id == specs[k].id && rs[k].name == specs[k].name
      invariant forall k :: 0 <= k < i ==> rs[k].romCode == UnknownCode && rs[k].lastReading == NoReading
      invariant forall id :: id in index <==> exists k :: 0 <= k < i && specs[k].id == id
      invariant forall id :: id in index ==> index[id] < i && specs[index[id]].id == id
      invariant forall id :: id in index ==> forall j :: index[id] < j < i ==> specs[j].id != id
    {
      var role := new ThermometerRole(specs[i].id, specs[i].name);
      rs := rs + [role];
      index := index[specs[i].id := i];
    }
  }

  /** Loading one more role keeps the mapping as `Loaded` describes it. */
  lemma LoadedStep(m: map<RomCode, int>, m': map<RomCode, int>, before: map<RomCode, int>,
                   store: map<int, RomCode>, rs: seq<ThermometerRole>, i: nat)
    requires i < |rs| && Loaded(m, before, store, rs[..i])
    requires var c := StoredCode(store, rs[i].id);
             m' == if c.IsUnknown() then m - {c} else m[c := rs[i].id]
    ensures Loaded(m', before, store, rs[..i + 1])
  {
    LoadedKeysStep(m, m', before, store, rs, i);
    LoadedValuesStep(m, m', before, store, rs, i);
  }

  /** The keys after one more role: see `Loaded`. */
  lemma LoadedKeysStep(m: map<RomCode, int>, m': map<RomCode, int>, before: map<RomCode, int>,
                       store: map<int, RomCode>, rs: seq<ThermometerRole>, i: nat)
    requires i < |rs| && Loaded(m, before, store, rs[..i])
    requires var c := StoredCode(store, rs[i].id);
             m' == if c.IsUnknown() then m - {c} else m[c := rs[i].id]
    ensures forall c :: c in m' <==>
              if c.IsUnknown() then c in before && !SomeUnstored(store, rs[..i + 1])
              else c in before || c in StoredCodes(store, rs[..i + 1])
  {
    StoredCodesStep(store, rs, i);
    SomeUnstoredStep(store, rs, i);
  }

  /** The values after one more role: see `Loaded`. */
  lemma LoadedValuesStep(m: map<RomCode, int>, m': map<RomCode, int>, before: map<RomCode, int>,
                         store: map<int, RomCode>, rs: seq<ThermometerRole>, i: nat)
    requires i < |rs| && Loaded(m, before, store, rs[..i])
    requires var c := StoredCode(store, rs[i].id);
             m' == if c.IsUnknown() then m - {c} else m[c := rs[i].id]
    ensures forall c :: c in m' && c in StoredCodes(store, rs[..i + 1]) ==> LastHolder(store, rs[..i + 1], c, m'[c])
    ensures forall c :: c in m' && c !in StoredCodes(store, rs[..i + 1]) ==> m'[c] == before[c]
  {
    StoredCodesStep(store, rs, i);
    var c0 := StoredCode(store, rs[i].id);
    forall c | c in m' && c in StoredCodes(store, rs[..i + 1])
      ensures LastHolder(store, rs[..i + 1], c, m'[c])
    {
      if c == c0 {
        assert rs[..i + 1][i] == rs[i];
      } else {
        LastHolderStep(store, rs, i, c, m[c]);
      }
    }
  }

  /** A role whose stored code is not `c` leaves the last holder of `c`
      where it was. */
  lemma LastHolderStep(store: map<int, RomCode>, rs: seq<ThermometerRole>, i: nat, c: RomCode, id: int)
    requires i < |rs| && LastHolder(store, rs[..i], c, id) && StoredCode(store, rs[i].id) != c
    ensures LastHolder(store, rs[..i + 1], c, id)
  {
    var k :| 0 <= k < i && rs[..i][k].id == id && StoredCode(store, rs[..i][k].id) == c &&
      forall j :: k < j < i ==> StoredCode(store, rs[..i][j].id) != c;
    assert rs[..i + 1][k] == rs[k];
    forall j | k < j < i + 1
      ensures StoredCode(store, rs[j].id) != c
    {
      if j < i {
        assert rs[..i][j] == rs[j];
      }
    }
  }

  /** Loading no role changes nothing. */
  lemma LoadedNone(m: map<RomCode, int>, store: map<int, RomCode>, rs: seq<ThermometerRole>)
    ensures Loaded(m, m, store, rs[..0])
  {
    assert StoredCodes(store, rs[..0]) == {};
  }

  /** One more role adds its stored code, if it has one, to the stored codes. */
  lemma StoredCodesStep(store: map<int, RomCode>, rs: seq<ThermometerRole>, i: nat)
    requires i < |rs|
    ensures var c := StoredCode(store, rs[i].id);
            StoredCodes(store, rs[..i + 1]) == StoredCodes(store, rs[..i]) + (if c.IsUnknown() then {} else {c})
  {
    var c := StoredCode(store, rs[i].id);
    forall x | x in StoredCodes(store, rs[..i + 1])
      ensures x in StoredCodes(store, rs[..i]) || (!c.IsUnknown() && x == c)
    {
      var k :| 0 <= k < i + 1 && !StoredCode(store, rs[..i + 1][k].id).IsUnknown() && x == StoredCode(store, rs[..i + 1][k].id);
      if k < i {
        assert rs[..i + 1][k] == rs[..i][k];
      }
    }
    forall x | x in StoredCodes(store, rs[..i])
      ensures x in StoredCodes(store, rs[..i + 1])
    {
      var k :| 0 <= k < i && !StoredCode(store, rs[..i][k].id).IsUnknown() && x == StoredCode(store, rs[..i][k].id);
      assert rs[..i + 1][k] == rs[..i][k];
    }
    if !c.IsUnknown() {
      assert rs[..i + 1][i] == rs[i];
    }
  }

  /** One more role leaves some role without a stored code exactly when an
      earlier one had none or it has none itself. */
  lemma SomeUnstoredStep(store: map<int, RomCode>, rs: seq<ThermometerRole>, i: nat)
    requires i < |rs|
    ensures SomeUnstored(store, rs[..i + 1]) <==> SomeUnstored(store, rs[..i]) || StoredCode(store, rs[i].id).IsUnknown()
  {
    if SomeUnstored(store, rs[..i]) {
      var k :| 0 <= k < i && StoredCode(store, rs[..i][k].id).IsUnknown();
      assert rs[..i + 1][k] == rs[..i][k];
    }
    if SomeUnstored(store, rs[..i + 1]) {
      var k :| 0 <= k < i + 1 && StoredCode(store, rs[..i + 1][k].id).IsUnknown();
      if k < i {
        assert rs[..i + 1][k] == rs[..i][k];
      }
    }
    assert rs[..i + 1][i] == rs[i];
  }
}
