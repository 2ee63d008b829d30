/** The capacity of all hosts, kept per "region/zone". */
module CloudCapacity {
  import opened Sorting
  import opened PolicyModel
  import opened ResourceManagers

  datatype Capacity = Capacity(name: string, region: string, manager: ResourceManager?)

  function Key(region: string, zone: string): string {
    region + "/" + zone
  }

  /** A region name holds no '/', so a key tells its region and its zone. */
  lemma {:induction false} KeyUnique(r1: string, z1: string, r2: string, z2: string)
    requires '/' !in r1 && '/' !in r2
    ensures Key(r1, z1) == Key(r2, z2) <==> r1 == r2 && z1 == z2
  {
    if Key(r1, z1) == Key(r2, z2) {
      SeparatorAt(r1, z1, r2, z2);
      SeparatorAt(r2, z2, r1, z1);
      assert r1 == Key(r1, z1)[..|r1|] && r2 == Key(r2, z2)[..|r2|];
      assert z1 == Key(r1, z1)[|r1| + 1..] && z2 == Key(r2, z2)[|r2| + 1..];
    }
  }

  lemma SeparatorAt(r1: string, z1: string, r2: string, z2: string)
    requires Key(r1, z1) == Key(r2, z2) && '/' !in r2
    ensures |r1| >= |r2|
  {
    assert Key(r1, z1)[|r1|] == '/';
  }

  /** Whether the zone's manager reports enough free CPUs and memory. */
  ghost predicate Room(info: Capacity, cpus: int, memory: int)
    reads if info.manager != null then {info.manager, Home(info.manager.nodePolicy)} else {}
  {
    info.manager != null && Fits(PolicyCfg(info.manager.nodePolicy), info.manager.State(), cpus, memory)
  }

  /** The names listed so far: the region's zones that have room, except those still to do. */
  ghost predicate Lists(zones: seq<string>, room: set<string>, todo: set<string>, region: string) {
    && (forall z :: z in zones <==> Key(region, z) in room && Key(region, z) !in todo)
    && (forall i, j :: 0 <= i < j < |zones| ==> zones[i] != zones[j])
  }

  lemma ListOneMore(zones: seq<string>, more: seq<string>, room: set<string>, todo: set<string>, region: string,
                    home: string, name: string)
    requires Lists(zones, room, todo, region) && '/' !in region && '/' !in home && Key(home, name) in todo
    requires more == if home == region && Key(home, name) in room then zones + [name] else zones
    ensures Lists(more, room, todo - {Key(home, name)}, region)
  {
    forall z ensures z in more <==> Key(region, z) in room && Key(region, z) !in todo - {Key(home, name)} {
      KeyUnique(region, z, home, name);
    }
    assert name in zones ==> Key(region, name) !in todo;
  }

  ghost predicate OwnKey(key: string, info: Capacity) {
    key == Key(info.region, info.name) && '/' !in info.region
  }

  class Provider {
    var capacityInfo: map<string, Capacity>

    ghost function Managers(): set<object>
      reads this
    {
      set k | k in capacityInfo && capacityInfo[k].manager != null :: capacityInfo[k].manager
    }

    ghost function Homes(): set<object>
      reads this
    {
      set k | k in capacityInfo && capacityInfo[k].manager != null :: Home(capacityInfo[k].manager.nodePolicy)
    }

    /** As SyncNodeCapacity builds it: every entry is kept under its own region and name. */
    ghost predicate Keyed()
      reads this
    {
      forall k :: k in capacityInfo ==> OwnKey(k, capacityInfo[k])
    }

    ghost predicate Valid()
      reads this, Managers(), Homes()
    {
      && this !in Managers() + Homes() && Keyed()
      && (forall k :: k in capacityInfo && capacityInfo[k].manager != null ==> capacityInfo[k].manager.Valid())
    }

    ghost predicate HasRoom(region: string, zone: string, cpus: int, memory: int)
      reads this, Managers(), Homes()
    {
      var key := Key(region, zone);
      key in capacityInfo && Room(capacityInfo[key], cpus, memory)
    }

    method FitInZone(region: string, zone: string, cpus: int, memory: int) returns (fit: bool)
      ensures fit == HasRoom(region, zone, cpus, memory)
    {
      var key := Key(region, zone);
      if key in capacityInfo {
        var info := capacityInfo[key];
        if info.manager == null {
          return false;
        }
        var n := info.manager.AvailableCPUs();
        var m := info.manager.AvailableMemory();
        return n >= cpus && m >= memory;
      }
      return false;
    }

    /** The zones listed for a region are exactly those FitInZone accepts, each once. */
    method GetAvailableZonesInRegion(region: string, cpus: int, memory: int) returns (zones: seq<string>)
      requires Keyed() && '/' !in region
      ensures forall z :: z in zones <==> HasRoom(region, z, cpus, memory)
      ensures forall i, j :: 0 <= i < j < |zones| ==> zones[i] != zones[j]
    {
      ghost var room := set k | k in capacityInfo && Room(capacityInfo[k], cpus, memory);
      zones := ListZones(region, cpus, memory, room);
    }

    method ListZones(region: string, cpus: int, memory: int, ghost room: set<string>) returns (zones: seq<string>)
      requires Keyed() && '/' !in region
      requires forall k :: k in capacityInfo ==> (k in room <==> Room(capacityInfo[k], cpus, memory))
      requires room <= capacityInfo.Keys
      ensures Lists(zones, room, {}, region)
    {
      zones := [];
      var todo := capacityInfo.Keys;
      while todo != {}
        invariant todo <= capacityInfo.Keys
        invariant Lists(zones, room, todo, region)
        decreases |todo|
      {
        var key := AnyOf(todo);
        var fits, name := Offered(key, region, cpus, memory, room);
        ghost var before := zones;
        if fits {
          zones := zones + [name];
        }
        ListOneMore(before, zones, room, todo, region, capacityInfo[key].region, name);
        todo := todo - {key};
      }
    }

    /** Whether one entry of the map belongs to the region and has room, and its name. */
    method Offered(key: string, region: string, cpus: int, memory: int, ghost room: set<string>)
      returns (fits: bool, name: string)
      requires key in capacityInfo && (key in room <==> Room(capacityInfo[key], cpus, memory))
      ensures fits <==> capacityInfo[key].region == region && key in room
      ensures name == capacityInfo[key].name
    {
      fits := Offers(capacityInfo[key], region, cpus, memory);
      name := capacityInfo[key].name;
    }

    method Offers(info: Capacity, region: string, cpus: int, memory: int) returns (fits: bool)
      ensures fits <==> info.region == region && Room(info, cpus, memory)
    {
      if info.region != region || info.manager == null {
        return false;
      }
      var n := info.manager.AvailableCPUs();
      var m := info.manager.AvailableMemory();
      return n >= cpus && m >= memory;
    }

    /** Books the request in the zone, with the zone's manager: what comes back and what is
        booked there is what the zone's policy promises, and no other zone is touched unless it
        shares the manager or the policy. */
    method AllocateCapacityInZone(region: string, zone: string, op: VM) returns (ok: bool, placed: VM)
      requires Valid()
      modifies Managers(), Homes()
      ensures !ok ==> placed == op
      ensures !(Key(region, zone) in capacityInfo && capacityInfo[Key(region, zone)].manager != null) ==> !ok
      ensures ok <==> op.cpus > 0 && op.memory > 0 && old(Grants(region, zone, op))
      ensures old(Dependable(region, zone)) && New(op) && !old(HasRoom(region, zone, op.cpus, op.memory)) ==> !ok
      ensures old(Dependable(region, zone) && Counts(region, zone)) && op.cpus > 0 && op.memory > 0 ==>
        (ok <==> old(HasRoom(region, zone, op.cpus, op.memory)))
      ensures ok ==> var m := capacityInfo[Key(region, zone)].manager;
        Booking(m.nodePolicy, old(m.State()), op, placed, m.State()) && m.live == old(m.live) + [Seen(m.nodePolicy, placed)]
      ensures forall m: ResourceManager :: m in old(Managers()) && (!ok || Apart(m, region, zone)) ==>
        m.State() == old(m.State()) && m.live == old(m.live)
      ensures Valid()
    {
      hide Booking, Grantable, Seen, Fits, PolicyCfg, PolicyState, Key, New, OwnKey, Partition;
      var key := Key(region, zone);
      if key in capacityInfo && capacityInfo[key].manager != null {
        ok, placed := AllocateWith(capacityInfo[key].manager, op);
        return;
      }
      return false, op;
    }

    ghost predicate Grants(region: string, zone: string, op: VM)
      reads this, Managers(), Homes()
    {
      var key := Key(region, zone);
      && key in capacityInfo && capacityInfo[key].manager != null
      && Grantable(capacityInfo[key].manager.nodePolicy, capacityInfo[key].manager.State(), op)
    }

    /** A manager that shares neither the zone's manager nor its policy. */
    ghost predicate Apart(m: ResourceManager, region: string, zone: string)
      reads this
    {
      var key := Key(region, zone);
      key in capacityInfo && capacityInfo[key].manager != null ==>
        m != capacityInfo[key].manager && Home(m.nodePolicy) != Home(capacityInfo[key].manager.nodePolicy)
    }

    /** The zone's reserved CPUs exist. */
    ghost predicate Dependable(region: string, zone: string)
      reads this
    {
      var key := Key(region, zone);
      key in capacityInfo && capacityInfo[key].manager != null ==>
        var cfg := PolicyCfg(capacityInfo[key].manager.nodePolicy);
        cfg.reserved <= cfg.all
    }

    /** The zone runs the simple policy. */
    ghost predicate Counts(region: string, zone: string)
      reads this
    {
      var key := Key(region, zone);
      key in capacityInfo && capacityInfo[key].manager != null && capacityInfo[key].manager.nodePolicy.Simple?
    }
  }

  /** Allocation by one manager, against the headroom it reports. */
  method AllocateWith(m: ResourceManager, op: VM) returns (ok: bool, placed: VM)
    requires m.Valid()
    modifies m, Home(m.nodePolicy)
    ensures m.Valid()
    ensures ok <==> op.cpus > 0 && op.memory > 0 && Grantable(m.nodePolicy, old(m.State()), op)
    ensures !ok ==> placed == op && m.State() == old(m.State()) && m.live == old(m.live)
    ensures ok ==> Booking(m.nodePolicy, old(m.State()), op, placed, m.State())
    ensures ok ==> m.live == old(m.live) + [Seen(m.nodePolicy, placed)]
    ensures var cfg := PolicyCfg(m.nodePolicy);
      var fits := Fits(cfg, old(m.State()), op.cpus, op.memory);
      cfg.reserved <= cfg.all ==>
        && (New(op) && ok ==> fits) && (m.nodePolicy.Simple? && op.cpus > 0 && op.memory > 0 ==> (ok <==> fits))
  {
    hide Booking, Grantable, Seen, Fits, New;
    AllocationFits(m, op);
    if op.cpus > 0 && op.memory > 0 {
      ResultGrantable(m.nodePolicy, m.State(), op);
    }
    ok, placed := m.Allocate(op);
  }

  lemma AllocationFits(m: ResourceManager, op: VM)
    requires m.Valid()
    ensures PolicyCfg(m.nodePolicy).reserved <= PolicyCfg(m.nodePolicy).all && op.cpus > 0 && op.memory > 0 ==>
      var fits := Fits(PolicyCfg(m.nodePolicy), m.State(), op.cpus, op.memory);
      && (New(op) && AllocateResult(m.nodePolicy, m.State(), op) == Done ==> fits)
      && (m.nodePolicy.Simple? ==> (fits <==> AllocateResult(m.nodePolicy, m.State(), op) == Done))
  {
    var cfg := PolicyCfg(m.nodePolicy);
    if cfg.reserved <= cfg.all && op.cpus > 0 && op.memory > 0 {
      match m.nodePolicy
      case Simple(p) => SimpleFits(cfg, m.State(), op);
      case Static(p) => if New(op) { StaticFits(p.topo, cfg, m.State(), op); }
    }
  }
}
