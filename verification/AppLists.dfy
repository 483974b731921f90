/**
 The lists of applications of an EFCT queue as linked structures: new ones waiting for activation, live ones,
 and destroyed ones waiting for the destructor (src/driver/linux_resource/efct_superbuf.c).
 */
module AppLists {
  import opened Chains

  class App {
    var destroy: bool

    constructor ()
      ensures !destroy
    {
      destroy := false;
    }
  }

  type Node = Cell<App>

  // ----- What the loops do, on sequences -----

  /** The nodes that are not, or that are, among the marked, in order. */
  ghost function Staying(s: seq<Node>, marked: set<Node>): seq<Node> {
    if s == [] then [] else (if s[0] in marked then [] else [s[0]]) + Staying(s[1..], marked)
  }

  ghost function Leaving(s: seq<Node>, marked: set<Node>): seq<Node> {
    if s == [] then [] else (if s[0] in marked then [s[0]] else []) + Leaving(s[1..], marked)
  }

  ghost function Reversed(s: seq<Node>): seq<Node> {
    if s == [] then [] else Reversed(s[1..]) + [s[0]]
  }

  /** Of every node exactly one thing becomes: it stays or it leaves. */
  lemma {:induction false} StaysOrLeaves(s: seq<Node>, marked: set<Node>, n: Node)
    ensures n in Staying(s, marked) <==> n in s && n !in marked
    ensures n in Leaving(s, marked) <==> n in s && n in marked
  {
    if s != [] {
      StaysOrLeaves(s[1..], marked, n);
      assert s == [s[0]] + s[1..];
    }
  }

  /** A walk along s that kept the nodes in done, moved those it did not keep to the front of d, giving out,
      and has rest before it, will end with the right two lists. */
  ghost predicate OnTheWay(s: seq<Node>, d: seq<Node>, marked: set<Node>, done: seq<Node>, rest: seq<Node>,
                           out: seq<Node>)
  {
    Staying(s, marked) == done + Staying(rest, marked) &&
    Reversed(Leaving(s, marked)) + d == Reversed(Leaving(rest, marked)) + out
  }

  lemma WalkOn(s: seq<Node>, d: seq<Node>, marked: set<Node>, done: seq<Node>, x: Node, rest: seq<Node>,
               out: seq<Node>)
    requires OnTheWay(s, d, marked, done, [x] + rest, out)
    ensures x in marked ==> OnTheWay(s, d, marked, done, rest, [x] + out)
    ensures x !in marked ==> OnTheWay(s, d, marked, done + [x], rest, out)
  {
    assert ([x] + rest)[1..] == rest;
    var leaving := Leaving(rest, marked);
    if x in marked {
      assert ([x] + leaving)[1..] == leaving;
      assert Reversed([x] + leaving) + out == Reversed(leaving) + ([x] + out);
    } else {
      assert Leaving([x] + rest, marked) == leaving;
      assert done + ([x] + Staying(rest, marked)) == (done + [x]) + Staying(rest, marked);
    }
  }

  lemma DropMiddle(a: seq<Node>, x: Node, b: seq<Node>)
    ensures var s := a + ([x] + b); s[..|a|] + s[|a| + 1..] == a + b && s[|a|] == x
  {
  }

  lemma Departs(s: seq<Node>, d: seq<Node>, marked: set<Node>)
    ensures OnTheWay(s, d, marked, [], s, d)
  {
  }

  lemma Arrives(s: seq<Node>, d: seq<Node>, marked: set<Node>, done: seq<Node>, out: seq<Node>)
    requires OnTheWay(s, d, marked, done, [], out)
    ensures done == Staying(s, marked) && out == Reversed(Leaving(s, marked)) + d
  {
  }

  lemma LastOf(s: seq<Node>, x: Node)
    ensures At(s + [x], |s + [x]| - 1) == x
  {
  }

  lemma HereAndNext(a: seq<Node>, x: Node, b: seq<Node>)
    ensures var s := a + ([x] + b); At(s, |a| - 1) == At(a, |a| - 1) && At(s, |a| + 1) == At(b, 0)
  {
  }

  // ----- The lists -----

  ghost predicate ListAt(head: Cell?<App>, s: seq<Node>)
    reads s
  {
    head == At(s, 0) && Linked(s) && Distinct(s)
  }

  ghost predicate Apart(s: seq<Node>, t: seq<Node>) {
    forall n | n in s :: n !in t
  }

  lemma ApartRemove(s: seq<Node>, i: nat, t: seq<Node>)
    requires Apart(s, t) && i < |s|
    ensures Apart(s[..i] + s[i + 1..], t) && s[i] !in t
  {
    assert s[i] in s;
    assert forall n | n in s[..i] + s[i + 1..] :: n in s;
  }

  lemma Pushed(s: seq<Node>, app: Node)
    requires Linked(s) && Distinct(s) && app !in s && app.next == At(s, 0)
    ensures ListAt(app, [app] + s)
  {
    LinkedInsert(s, 0, app);
    DistinctInsert(s, 0, app);
    assert s[..0] + [app] + s[0..] == [app] + s;
  }

  class Lists {
    var live: Cell?<App>
    var arriving: Cell?<App>
    var dying: Cell?<App>
    /** The nodes of each list in order, and those handed to their freers. */
    ghost var lives: seq<Node>
    ghost var arrivals: seq<Node>
    ghost var deaths: seq<Node>
    ghost var freed: seq<Node>

    ghost predicate Valid()
      reads this, lives, arrivals, deaths
    {
      && ListAt(live, lives) && ListAt(arriving, arrivals) && ListAt(dying, deaths)
      && Apart(lives, arrivals) && Apart(lives, deaths) && Apart(arrivals, deaths)
    }

    constructor ()
      ensures Valid() && lives == arrivals == deaths == freed == []
    {
      live, arriving, dying := null, null, null;
      lives, arrivals, deaths, freed := [], [], [], [];
    }

    /** efct_app_list_push onto the new applications. */
    method Push(app: Node)
      requires Valid() && app !in lives && app !in arrivals && app !in deaths
      modifies this`arriving, this`arrivals, app
      ensures Valid() && arrivals == [app] + old(arrivals)
    {
      app.next := arriving;
      arriving := app;
      Pushed(arrivals, app);
      hide At, Linked, Distinct;
      arrivals := [app] + arrivals;
    }

    /** The last node of a list. */
    method Last(head: Node, ghost s: seq<Node>) returns (last: Node)
      requires ListAt(head, s)
      ensures |s| > 0 && last == s[|s| - 1]
    {
      last := head;
      var app: Cell?<App> := head;
      ghost var i := 0;
      while app != null
        invariant ListAt(head, s) && i <= |s| && app == At(s, i)
        invariant (i > 0 ==> last == s[i - 1]) && (i == 0 ==> app != null)
        decreases |s| - i
      {
        last := app;
        app, i := app.next, i + 1;
      }
    }

    /** activate_new_apps: the new applications go in front of the live ones. */
    method ActivateNewApps()
      requires Valid()
      modifies this`live, this`arriving, this`lives, this`arrivals, arrivals
      ensures Valid() && lives == old(arrivals + lives) && arrivals == []
    {
      if arriving != null {
        var head := arriving;
        arriving := null;
        var last := Last(head, arrivals);
        assert last in arrivals;
        assert forall i | 0 <= i < |deaths| :: deaths[i] in deaths && deaths[i] != last;
        Join(last);
        live := head;
        lives, arrivals := arrivals + lives, [];
      } else {
        assert arrivals + lives == lives;
      }
    }

    /** The last new application points to the first live one. */
    method Join(last: Node)
      requires ListAt(live, lives) && |arrivals| > 0 && last == arrivals[|arrivals| - 1]
      requires Linked(arrivals) && Distinct(arrivals) && Apart(lives, arrivals)
      modifies last
      ensures Linked(arrivals + lives) && Distinct(arrivals + lives)
    {
      DistinctConcat(arrivals, lives);
      assert last in arrivals;
      assert forall i | 0 <= i < |lives| :: lives[i] in lives && lives[i] != last;
      last.next := live;
      LinkedConcat(arrivals, lives);
    }
  
    /** The pointers set to bypass the application at position i of the live list. */
    method SetPointers(app: Node, prev: Cell?<App>, ghost s: seq<Node>, ghost i: nat)
      requires Valid() && s == lives && i < |s| && app == s[i] && prev == At(s, i - 1)
      modifies this`live, prev
      ensures forall j | 0 <= j < |s| :: s[j].next == if j + 1 == i then At(s, i + 1) else At(s, j + 1)
      ensures live == (if i == 0 then At(s, 1) else At(s, 0)) && Linked(deaths) && Linked(arrivals)
    {
      assert prev != null ==> prev in lives;
      assert forall j | 0 <= j < |deaths| :: deaths[j] in deaths && deaths[j] !in lives;
      assert forall j | 0 <= j < |arrivals| :: arrivals[j] in arrivals && arrivals[j] !in lives;
      if prev == null {
        live := app.next;
      } else {
        prev.next := app.next;
      }
    }

    /** The live list is then the list without that application. */
    method Bypass(app: Node, prev: Cell?<App>, ghost s: seq<Node>, ghost i: nat)
      requires Valid() && s == lives && i < |s| && app == s[i] && prev == At(s, i - 1)
      modifies this`live, prev
      ensures ListAt(live, s[..i] + s[i + 1..]) && ListAt(arriving, arrivals) && ListAt(dying, deaths)
    {
      hide Apart;
      SetPointers(app, prev, s, i);
      ChainRemove(s, i);
    }

    /** The application at position i leaves the live list. */
    method Unlink(app: Node, prev: Cell?<App>, ghost i: nat)
      requires Valid() && i < |lives| && app == lives[i] && prev == At(lives, i - 1)
      modifies this`live, this`lives, prev
      ensures Valid() && lives == old(lives[..i] + lives[i + 1..])
      ensures app !in lives && app !in arrivals && app !in deaths
    {
      ghost var s := lives;
      ApartRemove(s, i, arrivals);
      ApartRemove(s, i, deaths);
      DistinctRemove(s, i);
      hide At, Distinct, Linked, Apart;
      Bypass(app, prev, s, i);
      lives := s[..i] + s[i + 1..];
    }

    /** efct_app_list_push onto the destroyed applications. */
    method PushDestroyed(app: Node)
      requires Valid() && app !in lives && app !in arrivals && app !in deaths
      modifies this`dying, this`deaths, app
      ensures Valid() && deaths == [app] + old(deaths)
    {
      app.next := dying;
      dying := app;
      Pushed(deaths, app);
      hide At, Linked, Distinct;
      deaths := [app] + deaths;
    }

    /** One round of ReapDestroyed, at a node with position |done| of the live list. */
    method ReapNext(app: Node, prev: Cell?<App>, ghost done: seq<Node>, ghost rest: seq<Node>)
      returns (next: Cell?<App>, prev': Cell?<App>)
      requires Valid() && lives == done + ([app] + rest) && prev == At(done, |done| - 1)
      modifies this`live, this`dying, this`lives, this`deaths, app, prev
      ensures Valid() && next == At(rest, 0)
      ensures app.value.destroy ==> lives == done + rest && prev' == prev && deaths == [app] + old(deaths)
      ensures !app.value.destroy ==> lives == (done + [app]) + rest && prev' == app && deaths == old(deaths)
    {
      DropMiddle(done, app, rest);
      HereAndNext(done, app, rest);
      next := app.next;
      assert next == At(lives, |done| + 1);
      hide At, Linked, Distinct, Apart;
      if app.value.destroy {
        Unlink(app, prev, |done|);
        PushDestroyed(app);
        prev' := prev;
      } else {
        assert lives == (done + [app]) + rest;
        prev' := app;
      }
    }

    /** The list surgery of reap_superbufs_from_apps: one walk along the live list takes out the applications marked
        for destruction, which go one by one in front of the destroyed ones. */
    method ReapDestroyed()
      requires Valid()
      modifies this`live, this`dying, this`lives, this`deaths, lives
      ensures Valid()
      ensures var marked := old(set n | n in lives && n.value.destroy);
              lives == Staying(old(lives), marked) && deaths == Reversed(Leaving(old(lives), marked)) + old(deaths)
    {
      hide Linked, Distinct, Apart, OnTheWay;
      ghost var s, d := lives, deaths;
      ghost var marked := set n | n in s && n.value.destroy;
      var prev: Cell?<App>, app := null, live;
      ghost var done, rest := [], s;
      Departs(s, d, marked);
      assert lives == done + rest;
      while app != null
        invariant Valid() && lives == done + rest && OnTheWay(s, d, marked, done, rest, deaths)
        invariant app == At(rest, 0) && prev == At(done, |done| - 1) && forall n | n in lives :: n in s
        decreases |rest|
      {
        ghost var x, more := rest[0], rest[1..];
        assert rest == [x] + more && x in lives && (prev != null ==> prev in lives);
        assert x.value.destroy <==> x in marked;
        WalkOn(s, d, marked, done, x, more, deaths);
        LastOf(done, x);
        app, prev := ReapNext(app, prev, done, more);
        done, rest := if x in marked then done else done + [x], more;
      }
      Arrives(s, d, marked, done, deaths);
    }

    /** The applications of a list are freed in order, each after its successor was read. */
    method FreeAll(head: Cell?<App>, ghost s: seq<Node>)
      requires head == At(s, 0) && Linked(s)
      modifies this`freed
      ensures freed == old(freed) + s
    {
      var app := head;
      ghost var i := 0;
      while app != null
        invariant i <= |s| && app == At(s, i) && freed == old(freed) + s[..i]
        decreases |s| - i
      {
        var next := app.next;
        freed := freed + [app];
        assert s[..i + 1] == s[..i] + [s[i]];
        app, i := next, i + 1;
      }
      assert s[..i] == s;
    }

    /** efct_destruct_apps_work: the destroyed applications are taken off their list and freed in list order. */
    method DestructApps()
      requires Valid()
      modifies this`dying, this`deaths, this`freed
      ensures Valid() && deaths == [] && freed == old(freed + deaths)
    {
      var head := dying;
      ghost var s := deaths;
      dying, deaths := null, [];
      FreeAll(head, s);
    }
  }
}
