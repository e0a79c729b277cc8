/**
 * The site directory (src/Sites/SiteManager.cs): the fixed placement of the
 * twenty variables over the ten sites, the "sites holding x" query, and the
 * fail / recover / dump operations.
 */
module SiteManager {
  import opened Wrappers
  import opened Text
  import opened Variables
  import opened Sites
  import opened Outcomes
  import Operations

  const NumVariables := 20
  const NumSites := 10

  /** Variable `varId` has a copy at site `siteId`: even ones everywhere, odd ones at site 1 + id mod 10. */
  predicate Placed(siteId: int, varId: int) {
    varId % 2 == 0 || siteId == 1 + varId % 10
  }

  /** The copies site `siteId` holds among variables `from`..20, in id order. */
  function DataFrom(siteId: int, from: int): seq<Variable>
    decreases NumVariables + 1 - from
  {
    if from > NumVariables then []
    else if Placed(siteId, from) then [Variables.New(from)] + DataFrom(siteId, from + 1)
    else DataFrom(siteId, from + 1)
  }

  lemma {:induction false} DataFromSound(siteId: int, from: int, k: int)
    requires 0 <= k < |DataFrom(siteId, from)|
    ensures var v := DataFrom(siteId, from)[k];
      from <= v.id <= NumVariables && Placed(siteId, v.id) && v == Variables.New(v.id)
    decreases NumVariables + 1 - from
  {
    if from <= NumVariables {
      if Placed(siteId, from) {
        if k > 0 {
          DataFromSound(siteId, from + 1, k - 1);
        }
      } else {
        DataFromSound(siteId, from + 1, k);
      }
    }
  }

  lemma {:induction false} DataFromComplete(siteId: int, from: int, id: int)
    requires from <= id <= NumVariables && Placed(siteId, id)
    ensures exists k :: 0 <= k < |DataFrom(siteId, from)| && DataFrom(siteId, from)[k].id == id
    decreases NumVariables + 1 - from
  {
    var d := DataFrom(siteId, from);
    if id == from {
      assert d[0].id == id;
    } else {
      DataFromComplete(siteId, from + 1, id);
      var k :| 0 <= k < |DataFrom(siteId, from + 1)| && DataFrom(siteId, from + 1)[k].id == id;
      if Placed(siteId, from) {
        assert d[k + 1].id == id;
      } else {
        assert d[k].id == id;
      }
    }
  }

  /** The directory as the constructor builds it: sites 1..10, each up, holding its placed copies. */
  function Initial(): (sites: seq<Site>)
    ensures DirectoryWF(sites)
    ensures forall i :: 0 <= i < |sites| ==> sites[i].state == Stable && sites[i].locks == [] && sites[i].upSince == 0
  {
    SitesFrom(1)
  }

  /** Sites `from`..10 as the constructor builds them. */
  function SitesFrom(from: nat): (r: seq<Site>)
    requires 1 <= from <= NumSites + 1
    ensures |r| == NumSites + 1 - from
    ensures forall i :: 0 <= i < |r| ==>
      r[i].id == from + i && r[i].data == Copies(from + i) && r[i].state == Stable && r[i].locks == [] && r[i].upSince == 0
    decreases NumSites + 1 - from
  {
    if from > NumSites then [] else [InitialSite(from)] + SitesFrom(from + 1)
  }

  /** Site `s` as the constructor builds it. */
  function InitialSite(s: int): (r: Site)
    ensures r.id == s && r.data == Copies(s) && r.state == Stable && r.locks == [] && r.upSince == 0
  {
    Site(s, Copies(s), [], Stable, 0)
  }

  /** The copies site `s` holds at construction, in id order. */
  function Copies(s: int): seq<Variable> {
    DataFrom(s, 1)
  }

  /** Ten sites, numbered 1..10 in order. */
  predicate DirectoryWF(sites: seq<Site>) {
    |sites| == NumSites && forall i :: 0 <= i < |sites| ==> sites[i].id == i + 1
  }

  /** Every site's lock table keeps its invariant. */
  predicate AllValid(sites: seq<Site>) {
    forall i :: 0 <= i < |sites| ==> Sites.Valid(sites[i])
  }

  /** The copies site `s` holds at construction. */
  function InitialCopies(s: int): seq<Variable>
    requires 1 <= s <= NumSites
  {
    Initial()[s - 1].data
  }

  /** Site `s` holds a copy of variable `id` at construction. */
  predicate HeldInitially(s: int, id: int)
    requires 1 <= s <= NumSites
  {
    HoldsVariable(Initial()[s - 1], NameOf(id))
  }

  /** Site `s` initially holds a copy of variable `id` exactly when the placement rule puts one there. */
  lemma InitialPlacement(s: int, id: int)
    requires 1 <= s <= NumSites
    ensures HeldInitially(s, id) <==> 1 <= id <= NumVariables && Placed(s, id)
  {
    var data := Initial()[s - 1].data;
    assert data == DataFrom(s, 1);
    if 1 <= id <= NumVariables && Placed(s, id) {
      DataFromComplete(s, 1, id);
      var k :| 0 <= k < |data| && data[k].id == id;
      DataFromSound(s, 1, k);
      assert data[k].name == NameOf(id);
    }
    if HeldInitially(s, id) {
      var k :| 0 <= k < |data| && data[k].name == NameOf(id);
      DataFromSound(s, 1, k);
      if data[k].id != id {
        NamesDistinct(data[k].id, id);
      }
    }
  }

  /**
   * Every one of the twenty variables has a copy somewhere: an odd one at
   * exactly one site, an even one at all ten; a copy is flagged replicated
   * exactly in the even case, and every copy starts with the value 10 * id.
   */
  lemma PlacementRule(id: int)
    requires 1 <= id <= NumVariables
    ensures id % 2 == 1 ==> forall s :: 1 <= s <= NumSites ==> (HeldInitially(s, id) <==> s == 1 + id % 10)
    ensures id % 2 == 0 ==> forall s :: 1 <= s <= NumSites ==> HeldInitially(s, id)
    ensures forall s, v :: 1 <= s <= NumSites && v in InitialCopies(s) && v.id == id
                          ==> v.value == 10 * id && (v.isReplicated <==> id % 2 == 0)
  {
    forall s | 1 <= s <= NumSites
      ensures HeldInitially(s, id) <==> Placed(s, id)
    {
      InitialPlacement(s, id);
    }
    forall s, v | 1 <= s <= NumSites && v in InitialCopies(s) && v.id == id
      ensures v == Variables.New(id)
    {
      var k :| 0 <= k < |InitialCopies(s)| && InitialCopies(s)[k] == v;
      DataFromSound(s, 1, k);
    }
  }

  /** Site ids increase along the sequence. */
  predicate IdsIncreasing(sites: seq<Site>) {
    forall i, j :: 0 <= i < j < |sites| ==> sites[i].id < sites[j].id
  }

  /**
   * The sites holding a copy of `name`, kept only when in `state` if a state
   * is given, in directory order.
   */
  function SitesWithVariable(sites: seq<Site>, name: string, state: Option<SiteState>): (r: seq<Site>)
    ensures forall s :: s in r <==> s in sites && HoldsVariable(s, name) && (state.None? || s.state == state.value)
    ensures |r| <= |sites|
  {
    if sites == [] then []
    else
      var rest := SitesWithVariable(sites[1..], name, state);
      if HoldsVariable(sites[0], name) && (state.None? || sites[0].state == state.value) then
        [sites[0]] + rest
      else rest
  }

  /** Selecting sites keeps them in directory order. */
  lemma {:induction false} SitesWithVariableKeepsOrder(sites: seq<Site>, name: string, state: Option<SiteState>)
    requires IdsIncreasing(sites)
    ensures IdsIncreasing(SitesWithVariable(sites, name, state))
    decreases |sites|
  {
    if sites != [] {
      var rest := SitesWithVariable(sites[1..], name, state);
      SitesWithVariableKeepsOrder(sites[1..], name, state);
      if HoldsVariable(sites[0], name) && (state.None? || sites[0].state == state.value) {
        forall s | s in rest ensures sites[0].id < s.id {
          var k :| 0 <= k < |sites[1..]| && sites[1..][k] == s;
          assert sites[k + 1] == s;
        }
        ConsIncreasing(sites[0], rest);
      }
    }
  }

  lemma ConsIncreasing(first: Site, rest: seq<Site>)
    requires IdsIncreasing(rest) && forall s :: s in rest ==> first.id < s.id
    ensures IdsIncreasing([first] + rest)
  {
    var r := [first] + rest;
    forall i, j | 0 <= i < j < |r| ensures r[i].id < r[j].id {
      assert r[j] == rest[j - 1];
      if i > 0 {
        assert r[i] == rest[i - 1];
      } else {
        assert rest[j - 1] in rest;
      }
    }
  }

  /**
   * The positions of the sites holding `name` in state `state`, in directory
   * order: the same sites `SitesWithVariable` returns, as places to update.
   */
  function Holders(sites: seq<Site>, name: string, state: SiteState): (r: seq<nat>)
    ensures forall k :: k in r <==> 0 <= k < |sites| && HoldsVariable(sites[k], name) && sites[k].state == state
    ensures forall a, b :: 0 <= a < b < |r| ==> r[a] < r[b]
    ensures forall a :: 0 <= a < |r| ==> r[a] < |sites|
  {
    HoldersFrom(sites, name, state, 0)
  }

  function HoldersFrom(sites: seq<Site>, name: string, state: SiteState, from: nat): (r: seq<nat>)
    ensures forall k :: k in r <==> from <= k < |sites| && HoldsVariable(sites[k], name) && sites[k].state == state
    ensures forall a, b :: 0 <= a < b < |r| ==> r[a] < r[b]
    ensures forall a :: 0 <= a < |r| ==> from <= r[a] < |sites|
    decreases |sites| - from
  {
    if from >= |sites| then []
    else
      var rest := HoldersFrom(sites, name, state, from + 1);
      if HoldsVariable(sites[from], name) && sites[from].state == state then [from] + rest else rest
  }

  /** The sites at the given positions, in that order. */
  function At(sites: seq<Site>, positions: seq<nat>): (r: seq<Site>)
    requires forall a :: 0 <= a < |positions| ==> positions[a] < |sites|
    ensures |r| == |positions| && forall a :: 0 <= a < |r| ==> r[a] == sites[positions[a]]
  {
    if positions == [] then [] else [sites[positions[0]]] + At(sites, positions[1..])
  }

  /** The positions `Holders` returns pick out exactly the sites `SitesWithVariable` returns, in order. */
  lemma {:induction false} HoldersPickSitesWithVariable(sites: seq<Site>, name: string, state: SiteState, from: nat)
    requires from <= |sites|
    ensures At(sites, HoldersFrom(sites, name, state, from)) == SitesWithVariable(sites[from..], name, Some(state))
    decreases |sites| - from
  {
    if from < |sites| {
      HoldersPickSitesWithVariable(sites, name, state, from + 1);
      assert sites[from..][1..] == sites[from + 1..];
      assert sites[from..][0] == sites[from];
      var rest := HoldersFrom(sites, name, state, from + 1);
      if HoldsVariable(sites[from], name) && sites[from].state == state {
        assert ([from] + rest)[1..] == rest;
      }
    }
  }

  lemma DirectoryIdsIncrease(sites: seq<Site>)
    requires DirectoryWF(sites)
    ensures IdsIncreasing(sites)
  {
  }

  /** In a well-formed directory the site with id `id` is the one at position id - 1. */
  lemma SiteById(sites: seq<Site>, s: Site)
    requires DirectoryWF(sites) && s in sites
    ensures 1 <= s.id <= NumSites && sites[s.id - 1] == s
  {
  }

  /** Position of the first site with id `siteId` in the given state. */
  function FindSite(sites: seq<Site>, siteId: int, state: SiteState): (r: Option<nat>)
    ensures r.Some? ==> r.value < |sites| && sites[r.value].id == siteId && sites[r.value].state == state
    ensures r.None? <==> forall i :: 0 <= i < |sites| ==> !(sites[i].id == siteId && sites[i].state == state)
  {
    if sites == [] then None
    else if sites[0].id == siteId && sites[0].state == state then Some(0)
    else match FindSite(sites[1..], siteId, state)
      case None => None
      case Some(k) => Some(k + 1)
  }

  /** Fails site `siteId`; an error unless that site is currently Stable. */
  function Fail(sites: seq<Site>, siteId: int): (r: Result<seq<Site>, Error>)
    requires DirectoryWF(sites)
    ensures r.Err? <==> !(1 <= siteId <= NumSites && sites[siteId - 1].state == Stable)
    ensures r.Err? ==> r.error == SiteNotStable(siteId)
    ensures r.Ok? ==> (|r.value| == |sites|
      && r.value[siteId - 1] == SiteFail(sites[siteId - 1])
      && (forall i :: 0 <= i < |sites| && i != siteId - 1 ==> r.value[i] == sites[i]))
  {
    match FindSite(sites, siteId, Stable)
    case None => Err(SiteNotStable(siteId))
    case Some(k) => Ok(sites[k := SiteFail(sites[k])])
  }

  /** Recovers site `siteId` at time `now`; an error unless that site is currently failed. */
  function Recover(sites: seq<Site>, siteId: int, now: int): (r: Result<seq<Site>, Error>)
    requires DirectoryWF(sites)
    ensures r.Err? <==> !(1 <= siteId <= NumSites && sites[siteId - 1].state == Sites.Fail)
    ensures r.Err? ==> r.error == SiteNotFailed(siteId)
    ensures r.Ok? ==> (|r.value| == |sites|
      && r.value[siteId - 1] == sites[siteId - 1].(state := Stable, upSince := now)
      && (forall i :: 0 <= i < |sites| && i != siteId - 1 ==> r.value[i] == sites[i]))
  {
    match FindSite(sites, siteId, Sites.Fail)
    case None => Err(SiteNotFailed(siteId))
    case Some(k) => Ok(sites[k := SiteRecover(sites[k], now)])
  }

  function Ids(sites: seq<Site>): (r: seq<int>)
    ensures |r| == |sites| && forall k :: 0 <= k < |r| ==> r[k] == sites[k].id
  {
    seq(|sites|, k requires 0 <= k < |sites| => sites[k].id)
  }

  function WithId(sites: seq<Site>, siteId: int): (r: seq<Site>)
    ensures forall s :: s in r <==> s in sites && s.id == siteId
  {
    if sites == [] then []
    else if sites[0].id == siteId then [sites[0]] + WithId(sites[1..], siteId)
    else WithId(sites[1..], siteId)
  }

  /**
   * The sites a dump reports, by id: the sites holding the variable when one
   * is named, otherwise the one site asked for, otherwise every site.
   */
  function Dump(sites: seq<Site>, siteId: Option<int>, variable: string): (r: seq<int>)
    requires DirectoryWF(sites)
    ensures forall i :: i in r ==> 1 <= i <= NumSites
  {
    var chosen := if !IsBlank(variable) then SitesWithVariable(sites, variable, None)
      else if siteId.None? then sites else WithId(sites, siteId.value);
    IdsOf(sites, chosen);
    Ids(chosen)
  }

  /** The ids of some of the directory's sites are those sites' ids. */
  lemma IdsOf(sites: seq<Site>, chosen: seq<Site>)
    requires DirectoryWF(sites) && forall s :: s in chosen ==> s in sites
    ensures forall i :: i in Ids(chosen) <==> 1 <= i <= NumSites && sites[i - 1] in chosen
  {
    var r := Ids(chosen);
    forall i
      ensures i in r <==> 1 <= i <= NumSites && sites[i - 1] in chosen
    {
      if i in r {
        var k :| 0 <= k < |r| && r[k] == i;
        assert chosen[k] in sites;
        var j :| 0 <= j < |sites| && sites[j] == chosen[k];
        assert sites[i - 1] == chosen[k];
      }
      if 1 <= i <= NumSites && sites[i - 1] in chosen {
        var k :| 0 <= k < |chosen| && chosen[k] == sites[i - 1];
        assert r[k] == i;
      }
    }
  }

  /**
   * A dump reports the sites holding the variable when one is named,
   * otherwise the one site asked for, otherwise every site.
   */
  lemma DumpSpec(sites: seq<Site>, siteId: Option<int>, variable: string)
    requires DirectoryWF(sites)
    ensures var r := Dump(sites, siteId, variable);
      && (!IsBlank(variable) ==> forall i :: i in r <==> 1 <= i <= NumSites && HoldsVariable(sites[i - 1], variable))
      && (IsBlank(variable) && siteId.Some? ==> forall i :: i in r <==> 1 <= i <= NumSites && i == siteId.value)
      && (IsBlank(variable) && siteId.None? ==> forall i :: i in r <==> 1 <= i <= NumSites)
  {
    var chosen := if !IsBlank(variable) then SitesWithVariable(sites, variable, None)
      else if siteId.None? then sites else WithId(sites, siteId.value);
    IdsOf(sites, chosen);
    assert forall k :: 0 <= k < |sites| ==> sites[k] in sites;
  }

  /**
   * Runs the tick's site operations in order. Dump reports and changes
   * nothing; a fail or recover on a site in the wrong state, or any
   * operation that is not a site operation, stops the run.
   */
  function Execute(sites: seq<Site>, ops: seq<Operations.Operation>, now: int): (r: Result<(seq<Site>, seq<Event>), Error>)
    requires DirectoryWF(sites)
    ensures r.Ok? ==> DirectoryWF(r.value.0)
    ensures r.Ok? && AllValid(sites) ==> AllValid(r.value.0)
    ensures r.Ok? ==> forall i :: 0 <= i < |sites| ==> SameLayout(sites[i], r.value.0[i])
    ensures r.Err? ==> r.error.SiteNotStable? || r.error.SiteNotFailed? || r.error == MissingSite || r.error == UnsupportedOperation
    decreases |ops|
  {
    if ops == [] then Ok((sites, []))
    else
      match Apply(sites, ops[0], now)
      case Err(e) => Err(e)
      case Ok((sites', events)) =>
        match Execute(sites', ops[1..], now)
        case Err(e) => Err(e)
        case Ok((sites'', more)) =>
          LayoutTransitive(sites, sites', sites'');
          Ok((sites'', events + more))
  }

  /** One site operation: a dump reports, a fail or recover changes its site. */
  function Apply(sites: seq<Site>, op: Operations.Operation, now: int): (r: Result<(seq<Site>, seq<Event>), Error>)
    requires DirectoryWF(sites)
    ensures r.Ok? ==> DirectoryWF(r.value.0)
    ensures r.Ok? && AllValid(sites) ==> AllValid(r.value.0)
    ensures r.Ok? ==> forall i :: 0 <= i < |sites| ==> SameLayout(sites[i], r.value.0[i])
    ensures r.Err? ==> r.error.SiteNotStable? || r.error.SiteNotFailed? || r.error == MissingSite || r.error == UnsupportedOperation
  {
    if op.kind == Operations.Dump then Ok((sites, [DumpEvent(Dump(sites, op.site, op.variable))]))
    else if op.kind == Operations.Fail then
      if op.site.None? then Err(MissingSite)
      else match Fail(sites, op.site.value)
        case Err(e) => Err(e)
        case Ok(s) => Ok((s, []))
    else if op.kind == Operations.Recover then
      if op.site.None? then Err(MissingSite)
      else match Recover(sites, op.site.value, now)
        case Err(e) => Err(e)
        case Ok(s) => Ok((s, []))
    else Err(UnsupportedOperation)
  }

  /** Keeping the layout twice keeps it. */
  lemma LayoutTransitive(a: seq<Site>, b: seq<Site>, c: seq<Site>)
    requires |a| == |b| == |c|
    requires forall i :: 0 <= i < |a| ==> SameLayout(a[i], b[i])
    requires forall i :: 0 <= i < |b| ==> SameLayout(b[i], c[i])
    ensures forall i :: 0 <= i < |a| ==> SameLayout(a[i], c[i])
  {
  }
}
