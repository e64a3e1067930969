/** What a network that has lost contacts comes to: the shortest distances over those it still has. */
module Reconvergence {
  import opened MeshTypes
  import opened RouteTable
  import opened RouteNetwork
  import opened Convergence
  import opened Forgetting

  /** The same tables, judged by the contacts that are left. */
  function Relinked(w: World, live: set<(Mac, Mac)>): World
  {
    Silence(w).(topo := w.topo.(links := live))
  }

  /** All of the network, with the contacts that are left. */
  function Whole(w: World, live: set<(Mac, Mac)>): Rest
  {
    Rest(w.topo.nodes, live)
  }

  /** Some contacts of w are left, and what was lost directly has been withdrawn. */
  ghost predicate AfterLoss(w: World, live: set<(Mac, Mac)>, start: Clock, spells: seq<Spell>)
  {
    && Sound(w) && live <= w.topo.links && InSequence(spells, Whole(w, live), start)
    && forall d :: d in w.topo.nodes ==>
         LostContactsGone(w, Whole(w, live), d, start) && BeaconsInSpells(w, spells, Whole(w, live), d)
  }

  lemma EntryRelinked(v: World, live: set<(Mac, Mac)>, x: Mac, i: nat)
    requires Sound(v) && x in v.tables && i < |v.tables[x]| && v.tables[x][i].valid
    requires var e := v.tables[x][i];
             RouteAt(v, x, e.destMac).Some? ==> LiveRoute(RouteAt(v, x, e.destMac).value, x, e.destMac, live)
    ensures EntrySound(v.tables[x][i], x, Relinked(v, live).topo)
  {
    LookupOf(v.tables[x], i);
  }

  lemma {:induction false} RunKeepsNodes(w: World, evs: seq<Event>)
    requires Sound(w)
    ensures Sound(Run(w, evs)) && SameNodes(w, Run(w, evs))
  {
    RunSound(w, evs);
    if |evs| > 0 {
      RunKeepsNodes(w, evs[..|evs| - 1]);
      RunSound(w, evs[..|evs| - 1]);
    }
  }

  lemma {:induction false} SpellsKeepNodes(w: World, spells: seq<Spell>)
    requires Sound(w)
    ensures Sound(AfterSpells(w, spells)) && SameNodes(w, AfterSpells(w, spells))
  {
    if |spells| > 0 {
      SpellsKeepNodes(w, spells[..|spells| - 1]);
      RunKeepsNodes(Silence(AfterSpells(w, spells[..|spells| - 1])), spells[|spells| - 1].events);
    }
  }

  /** After 14 spells the routing tables are sound for the contacts that are left. */
  lemma SoundAgain(w: World, live: set<(Mac, Mac)>, start: Clock, spells: seq<Spell>)
    requires AfterLoss(w, live, start, spells) && |spells| >= 14
    ensures Sound(Relinked(AfterSpells(w, spells), live))
    ensures SameNodes(w, AfterSpells(w, spells))
  {
    var c, v := Whole(w, live), AfterSpells(w, spells);
    SpellsKeepNodes(w, spells);
    var u := Relinked(v, live);
    forall x | x in v.tables
      ensures TableSound(v.tables[x], x, u.topo)
    {
      forall i | 0 <= i < |v.tables[x]| && v.tables[x][i].valid
        ensures EntrySound(v.tables[x][i], x, u.topo)
      {
        assert EntrySound(v.tables[x][i], x, v.topo);
        StaleRoutesDie(w, c, v.tables[x][i].destMac, start, spells, x);
        EntryRelinked(v, live, x, i);
      }
    }
  }

  lemma StableAgain(w: World, live: set<(Mac, Mac)>, start: Clock, spells: seq<Spell>)
    requires AfterLoss(w, live, start, spells) && |spells| >= 14 && |w.topo.nodes| <= MAX_NODES
    ensures Stable(Relinked(AfterSpells(w, spells), live))
  {
    SoundAgain(w, live, start, spells);
  }

  lemma GreetedConverges(u: World, greetings: seq<Hearing>, rounds: seq<seq<Hearing>>, later: seq<Hearing>)
    requires Stable(u) && Possible(u, greetings) && Covers(u, greetings)
    requires AllPossible(Greetings(u, greetings), rounds) && AllCover(Greetings(u, greetings), rounds)
    requires Possible(Greetings(u, greetings), later)
    ensures CorrectUpTo(Exchanges(AfterRounds(Greetings(u, greetings), rounds), later), |rounds| + 1)
  {
    GreetingsMakeDirectRoutes(u, greetings);
    Converges(Greetings(u, greetings), rounds, later);
  }

  /**
   A network of at most 19 nodes that loses contacts: once the direct routes to lost neighbours
   are gone, 14 spells of 90 seconds with any traffic, a handshake over every contact that is
   left and k rounds of exchanges give exact routes, over those contacts, to every node at
   distance at most k + 1, and later exchanges keep them.
   */
  lemma Reconverges(w: World, live: set<(Mac, Mac)>, start: Clock, spells: seq<Spell>,
                    greetings: seq<Hearing>, rounds: seq<seq<Hearing>>, later: seq<Hearing>)
    requires AfterLoss(w, live, start, spells) && |spells| >= 14 && |w.topo.nodes| <= MAX_NODES
    requires var u := Relinked(AfterSpells(w, spells), live);
             Stable(u) ==>
               && Possible(u, greetings) && Covers(u, greetings)
               && AllPossible(Greetings(u, greetings), rounds) && AllCover(Greetings(u, greetings), rounds)
               && Possible(Greetings(u, greetings), later)
    ensures var u := Relinked(AfterSpells(w, spells), live);
            && Stable(u)
            && var v := Exchanges(AfterRounds(Greetings(u, greetings), rounds), later);
               v.topo.links == live && CorrectUpTo(v, |rounds| + 1)
  {
    StableAgain(w, live, start, spells);
    GreetedConverges(Relinked(AfterSpells(w, spells), live), greetings, rounds, later);
  }
}
