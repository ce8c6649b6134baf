/** Device enumeration of the U-Boot API: repeated calls that hand the last
    cookie back, over the network device and five groups of storage devices.
 */
module DeviceEnum {

  const ENUM_MAX := 5

  /** A device pointer as the API hands it out. */
  datatype Cookie = NULL | At(id: nat)

  /** A storage device descriptor: its address and whether a device is attached. */
  datatype Descriptor = Descriptor(id: nat, active: bool)

  datatype Slot = Vacant | Holds(dd: Descriptor)

  /** The slots of each group; a group that is not configured has none. */
  type Table = seq<seq<Slot>>

  /** `get_dev` for slot `i` of group `g`. */
  function GetDev(table: Table, g: nat, i: nat): Slot
    requires g < |table|
  {
    if i < |table[g]| then table[g][i] else Vacant
  }

  function CookieOf(s: Slot): Cookie {
    match s case Vacant => NULL case Holds(dd) => At(dd.id)
  }

  /** Five groups, every descriptor at its own address, none at that of the
      network device. */
  ghost predicate Distinct(table: Table, net: Cookie) {
    && |table| == ENUM_MAX
    && (forall g, i, h, j :: Placed(table, g, i) && Placed(table, h, j) && table[g][i].dd.id == table[h][j].dd.id ==>
                               g == h && i == j)
    && (forall g, i :: Placed(table, g, i) ==> net != At(table[g][i].dd.id))
  }

  /** Slot `i` of group `g` holds a descriptor. */
  predicate Placed(table: Table, g: int, i: int) {
    0 <= g < |table| && 0 <= i < |table[g]| && table[g][i].Holds?
  }

  /** The device that enumeration can find in group `g`: only slot 0 is ever tried. */
  function Front(table: Table, g: nat): Slot
    requires g < |table|
  {
    GetDev(table, g, 0)
  }

  predicate Reportable(s: Slot) {
    s.Holds? && s.dd.active
  }

  /** The cookies of the reportable front devices from group `g` on. */
  function FrontsFrom(table: Table, g: nat): seq<Cookie>
    requires g <= |table|
    decreases |table| - g
  {
    if g == |table| then []
    else (if Reportable(Front(table, g)) then [CookieOf(Front(table, g))] else []) + FrontsFrom(table, g + 1)
  }

  /** What a complete enumeration reports. */
  function Expected(table: Table, net: Cookie): seq<Cookie> {
    (if net == NULL then [] else [net]) + FrontsFrom(table, 0)
  }

  /** Slot `i` is the first of a group that the cookie names. */
  predicate FirstAt(slots: seq<Slot>, cookie: Cookie, i: nat)
    requires i < |slots|
  {
    CookieOf(slots[i]) == cookie && forall j :: 0 <= j < i ==> CookieOf(slots[j]) != cookie
  }

  /** The cookie names no device of the groups from `k` on. */
  ghost predicate Behind(table: Table, k: nat, cookie: Cookie) {
    cookie == NULL || forall g, i :: k <= g && Placed(table, g, i) ==> cookie != At(table[g][i].dd.id)
  }

  class Enumerator {
    const table: Table
    const net: Cookie
    var started: seq<bool>
    var ended: seq<bool>

    constructor (table: Table, net: Cookie)
      requires |table| == ENUM_MAX
      ensures this.table == table && this.net == net && Shaped()
    {
      this.table, this.net := table, net;
      started, ended := seq(ENUM_MAX, i => false), seq(ENUM_MAX, i => false);
    }

    ghost predicate Shaped()
      reads this
    {
      |table| == |started| == |ended| == ENUM_MAX
    }

    /** Groups before `k` are done with, the others untouched. */
    ghost predicate Frontier(k: nat)
      reads this
    {
      && Shaped() && k <= ENUM_MAX
      && (forall i :: 0 <= i < k ==> started[i] && ended[i])
      && (forall i :: k <= i < ENUM_MAX ==> !started[i] && !ended[i])
    }

    /** `dev_stor_get`. */
    method StorGet(g: nat, first: bool, cookie: Cookie) returns (found: bool, more: bool, next: Cookie)
      requires Shaped() && g < ENUM_MAX
      ensures first ==> !more && found == Reportable(Front(table, g)) && next == CookieOf(Front(table, g))
      ensures !first ==>
        forall i :: 0 <= i < |table[g]| && FirstAt(table[g], cookie, i) ==>
          var s := GetDev(table, g, i + 1);
          next == CookieOf(s) && found == Reportable(s) && more == (s.Holds? && i + 2 < |table[g]|)
      ensures !first && (forall i :: 0 <= i < |table[g]| ==> CookieOf(table[g][i]) != cookie) ==> !found && next == NULL
    {
      found, more, next := false, false, cookie;
      var slot := Vacant;
      if first {
        slot := GetDev(table, g, 0);
        next := CookieOf(slot);
        if next == NULL { return; }
        found := true;
      } else {
        var i := 0;
        while i < |table[g]|
          invariant 0 <= i <= |table[g]| && next == cookie && !found && !more && slot == Vacant
          invariant forall j :: 0 <= j < i ==> CookieOf(table[g][j]) != cookie
        {
          if cookie == CookieOf(GetDev(table, g, i)) {
            i := i + 1;
            if i >= |table[g]| {
              next := NULL;
              break;
            }
            slot := GetDev(table, g, i);
            next := CookieOf(slot);
            if next == NULL { return; }
            found := true;
            more := i + 1 < |table[g]|;
            break;
          }
          i := i + 1;
        }
      }
      if found {
        if slot.Holds? && !slot.dd.active {
          found := false;
        }
      } else {
        next := NULL;
      }
    }

    /** `dev_stor_type`: the group that a cookie belongs to, or `ENUM_MAX`. */
    method StorType(cookie: Cookie) returns (g: nat)
      requires Shaped()
      ensures g <= ENUM_MAX
      ensures g < ENUM_MAX ==> exists i :: 0 <= i < |table[g]| && CookieOf(table[g][i]) == cookie
      ensures forall h, i :: 0 <= h < g && 0 <= i < |table[h]| ==> CookieOf(table[h][i]) != cookie
    {
      g := 0;
      while g < ENUM_MAX
        invariant g <= ENUM_MAX
        invariant forall h, i :: 0 <= h < g && 0 <= i < |table[h]| ==> CookieOf(table[h][i]) != cookie
      {
        var j := 0;
        while j < |table[g]|
          invariant j <= |table[g]|
          invariant forall i :: 0 <= i < j ==> CookieOf(table[g][i]) != cookie
        {
          if cookie == CookieOf(GetDev(table, g, j)) { return; }
          j := j + 1;
        }
        g := g + 1;
      }
    }

    /** `dev_enum_stor`. */
    method EnumStor(g: nat, cookie: Cookie) returns (found: bool, next: Cookie)
      requires Shaped() && g < ENUM_MAX
      modifies this
      ensures Shaped()
      ensures old(ended[g]) && cookie != NULL ==> !found && next == cookie && started == old(started) && ended == old(ended)
      ensures !old(started[g]) && !old(ended[g]) && (forall i :: 0 <= i < |table[g]| ==> cookie == NULL || CookieOf(table[g][i]) != cookie) ==>
        && found == Reportable(Front(table, g)) && next == CookieOf(Front(table, g))
        && started == old(started)[g := true] && ended == old(ended)[g := true]
    {
      var more := false;
      found, next := false, cookie;
      if cookie == NULL {
        found, more, next := StorGet(g, true, cookie);
        started := started[g := true];
      } else {
        var kind := StorType(cookie);
        if kind == g {
          if ended[g] { return; }
          found, more, next := StorGet(g, false, cookie);
        } else {
          if ended[g] { return; }
          if !started[g] {
            started := started[g := true];
            found, more, next := StorGet(g, true, cookie);
          }
        }
      }
      ended := ended[g := !more];
    }

    /** `dev_enum_storage`: goes on from the frontier to the next reportable front
        device. */
    method EnumStorage(cookie: Cookie, ghost k: nat) returns (found: bool, next: Cookie, ghost k': nat)
      requires Frontier(k) && Distinct(table, net) && Behind(table, k, cookie) && (cookie == NULL ==> k == 0)
      modifies this
      ensures Frontier(k')
      ensures if found then k < k' && next != NULL && Behind(table, k', next) && FrontsFrom(table, k) == [next] + FrontsFrom(table, k')
              else FrontsFrom(table, k) == []
    {
      next := cookie;
      k' := k;
      var i := 0;
      while i < ENUM_MAX
        invariant 0 <= i <= ENUM_MAX
        invariant k' == (if i < k then k else i) && Frontier(k') && Behind(table, k', next)
        invariant next == NULL ==> k <= i
        invariant FrontsFrom(table, k) == FrontsFrom(table, k')
      {
        found, next := EnumStor(i, next);
        if k <= i {
          k' := i + 1;
        }
        if found { return; }
        i := i + 1;
      }
      found := false;
    }

    /** `dev_enum_reset`. */
    method Reset()
      requires Shaped()
      modifies this
      ensures Frontier(0)
    {
      for i := 0 to ENUM_MAX
        invariant Shaped() && forall j :: 0 <= j < i ==> !started[j] && !ended[j]
      {
        started := started[i := false];
        ended := ended[i := false];
      }
    }

    /** `API_dev_enum`. */
    method DevEnum(cookie: Cookie, ghost k: nat) returns (next: Cookie, ghost k': nat)
      requires Shaped() && Distinct(table, net)
      requires cookie != NULL ==> Frontier(k) && Behind(table, k, cookie)
      modifies this
      ensures Frontier(k')
      ensures next != NULL ==> Behind(table, k', next)
      ensures var due := if cookie == NULL then Expected(table, net) else FrontsFrom(table, k);
              due == if next == NULL then [] else [next] + FrontsFrom(table, k')
    {
      k' := k;
      if cookie == NULL {
        Reset();
        k' := 0;
        // net device enumeration first
        if net != NULL {
          return net, 0;
        }
      }
      var found;
      found, next, k' := EnumStorage(cookie, k');
      if !found {
        next := NULL;
      }
    }

    /** Of `want`, `reported` has been seen, and `cookie` leads on to the rest. */
    ghost predicate Due(want: seq<Cookie>, reported: seq<Cookie>, cookie: Cookie, k: nat)
      reads this
    {
      && Shaped()
      && (cookie != NULL ==> Frontier(k) && Behind(table, k, cookie))
      && want == reported + if cookie == NULL || k > |table| then [] else [cookie] + FrontsFrom(table, k)
    }

    /** One more call, with the last cookie handed back. */
    method Follow(reported: seq<Cookie>, cookie: Cookie, ghost k: nat, ghost want: seq<Cookie>)
        returns (next: Cookie, ghost k': nat)
      requires Distinct(table, net) && cookie != NULL && Due(want, reported, cookie, k)
      modifies this
      ensures Due(want, reported + [cookie], next, k') && |reported| < |want|
    {
      ghost var due := FrontsFrom(table, k);
      assert want == reported + [cookie] + due;
      next, k' := DevEnum(cookie, k);
      assert due == if next == NULL then [] else [next] + FrontsFrom(table, k');
    }

    /** A caller that feeds every cookie back until it gets NULL. */
    method Enumerate() returns (reported: seq<Cookie>, calls: nat)
      requires Shaped() && Distinct(table, net)
      modifies this
      ensures reported == Expected(table, net)
      ensures calls == |reported| + 1 <= ENUM_MAX + 2
    {
      reported, calls := [], 1;
      ghost var k := 0;
      ghost var want := Expected(table, net);
      FrontsBound(table, 0);
      assert |want| <= ENUM_MAX + 1;
      var cookie;
      cookie, k := DevEnum(NULL, 0);
      while cookie != NULL
        invariant calls == |reported| + 1 && Due(want, reported, cookie, k) && |reported| <= |want|
        decreases |want| - |reported|
      {
        var last := cookie;
        cookie, k := Follow(reported, last, k, want);
        reported := reported + [last];
        calls := calls + 1;
      }
    }
  }

  lemma {:induction false} FrontsBound(table: Table, g: nat)
    requires g <= |table|
    ensures |FrontsFrom(table, g)| <= |table| - g
    decreases |table| - g
  {
    if g < |table| { FrontsBound(table, g + 1); }
  }

  // ----- what gets reported

  ghost predicate FromGroup(table: Table, g: nat, c: Cookie) {
    exists i :: g <= i < |table| && Reportable(Front(table, i)) && c == CookieOf(Front(table, i))
  }

  lemma {:induction false} FrontsMembers(table: Table, g: nat, c: Cookie)
    requires g <= |table|
    ensures c in FrontsFrom(table, g) <==> FromGroup(table, g, c)
    decreases |table| - g
  {
    if g < |table| {
      FrontsMembers(table, g + 1, c);
      var f := Front(table, g);
      var head := if Reportable(f) then [CookieOf(f)] else [];
      assert FrontsFrom(table, g) == head + FrontsFrom(table, g + 1);
      assert c in head <==> Reportable(f) && c == CookieOf(f);
      assert FromGroup(table, g, c) <==> (Reportable(f) && c == CookieOf(f)) || FromGroup(table, g + 1, c);
    }
  }

  lemma {:induction false} FrontsDistinct(table: Table, net: Cookie, g: nat)
    requires Distinct(table, net) && g <= |table|
    ensures forall i, j :: 0 <= i < j < |FrontsFrom(table, g)| ==> FrontsFrom(table, g)[i] != FrontsFrom(table, g)[j]
    ensures net !in FrontsFrom(table, g)
    decreases |table| - g
  {
    FrontsMembers(table, g, net);
    if g < |table| {
      FrontsDistinct(table, net, g + 1);
      FrontsMembers(table, g + 1, CookieOf(Front(table, g)));
      assert Reportable(Front(table, g)) ==> Placed(table, g, 0);
      assert forall i :: g < i < |table| && Reportable(Front(table, i)) ==> Placed(table, i, 0);
    }
  }

  /** What is reported: the network device if there is one, and of each group the
      device in its first slot, if one is attached. */
  lemma ReportedIff(table: Table, net: Cookie, c: Cookie)
    ensures c in Expected(table, net) <==>
            || (c == net && net != NULL)
            || exists g :: 0 <= g < |table| && table[g] != [] && table[g][0].Holds? && table[g][0].dd.active && c == At(table[g][0].dd.id)
  {
    FrontsMembers(table, 0, c);
    if FromGroup(table, 0, c) {
      var g :| 0 <= g < |table| && Reportable(Front(table, g)) && c == CookieOf(Front(table, g));
      assert table[g] != [] && table[g][0].Holds?;
    }
    forall g | 0 <= g < |table| && table[g] != [] && table[g][0].Holds? && table[g][0].dd.active && c == At(table[g][0].dd.id)
      ensures FromGroup(table, 0, c)
    {
      assert Reportable(Front(table, g));
    }
  }

  /** The network device comes first. */
  lemma NetworkFirst(table: Table, net: Cookie)
    requires net != NULL
    ensures Expected(table, net) != [] && Expected(table, net)[0] == net
  {
  }

  /** The devices at two places of a report come from groups in that order. */
  ghost predicate InGroupOrder(table: Table, from: nat, a: Cookie, b: Cookie) {
    exists g, h :: from <= g < h < |table| && IsFront(table, g, a) && IsFront(table, h, b)
  }

  ghost predicate IsFront(table: Table, g: int, c: Cookie) {
    0 <= g < |table| && table[g] != [] && table[g][0].Holds? && c == At(table[g][0].dd.id)
  }

  lemma {:induction false} FrontsInOrder(table: Table, g: nat, i: nat, j: nat)
    requires g <= |table| && i < j < |FrontsFrom(table, g)|
    ensures InGroupOrder(table, g, FrontsFrom(table, g)[i], FrontsFrom(table, g)[j])
    decreases |table| - g
  {
    var rest, f := FrontsFrom(table, g + 1), Front(table, g);
    if !Reportable(f) {
      assert FrontsFrom(table, g) == [] + rest == rest;
      FrontsInOrder(table, g + 1, i, j);
      LaterOrder(table, g, rest[i], rest[j]);
    } else {
      assert FrontsFrom(table, g) == [CookieOf(f)] + rest;
      if i == 0 {
        FrontBefore(table, g, rest[j - 1]);
      } else {
        FrontsInOrder(table, g + 1, i - 1, j - 1);
        LaterOrder(table, g, rest[i - 1], rest[j - 1]);
      }
    }
  }

  lemma LaterOrder(table: Table, g: nat, a: Cookie, b: Cookie)
    requires InGroupOrder(table, g + 1, a, b)
    ensures InGroupOrder(table, g, a, b)
  {
  }

  lemma FrontBefore(table: Table, g: nat, c: Cookie)
    requires g < |table| && Reportable(Front(table, g)) && c in FrontsFrom(table, g + 1)
    ensures InGroupOrder(table, g, CookieOf(Front(table, g)), c)
  {
    FrontsMembers(table, g + 1, c);
    var h :| g + 1 <= h < |table| && Reportable(Front(table, h)) && c == CookieOf(Front(table, h));
    assert IsFront(table, g, CookieOf(Front(table, g))) && IsFront(table, h, c);
  }

  /** Storage devices are reported in the order of their groups. */
  lemma ReportedInOrder(table: Table, net: Cookie, i: nat, j: nat)
    requires i < j < |Expected(table, net)| && (net != NULL ==> 0 < i)
    ensures InGroupOrder(table, 0, Expected(table, net)[i], Expected(table, net)[j])
  {
    var d := if net == NULL then 0 else 1;
    FrontsInOrder(table, 0, i - d, j - d);
  }

  /** No device is reported twice. */
  lemma ReportedOnce(table: Table, net: Cookie)
    requires Distinct(table, net)
    ensures var r := Expected(table, net); forall i, j :: 0 <= i < j < |r| ==> r[i] != r[j]
  {
    FrontsDistinct(table, net, 0);
  }

  /** Every attached storage device is reported if and only if none sits in a
      slot other than the first of its group. */
  lemma AllReportedIff(table: Table, net: Cookie)
    requires Distinct(table, net)
    ensures (forall g, i :: Placed(table, g, i) && table[g][i].dd.active ==>
               At(table[g][i].dd.id) in Expected(table, net))
            <==>
            (forall g, i :: Placed(table, g, i) && table[g][i].dd.active ==> i == 0)
  {
    forall g, i | Placed(table, g, i) && table[g][i].dd.active
      ensures At(table[g][i].dd.id) in Expected(table, net) <==> i == 0
    {
      var c := At(table[g][i].dd.id);
      FrontsMembers(table, 0, c);
      if i == 0 {
        assert Front(table, g) == table[g][0];
        assert FromGroup(table, 0, c);
      } else {
        assert forall h :: 0 <= h < |table| && Reportable(Front(table, h)) ==> Placed(table, h, 0);
        assert !FromGroup(table, 0, c);
      }
      assert net != c;
    }
  }
}
