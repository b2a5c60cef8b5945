/** Network-change detection in `MegaApplication`: a length test and one-directional lookups. */
module NetworkChange {
  import opened Sets

  datatype Protocol = IPv4 | IPv6 | Other

  /** An address: its protocol and its text, which is what lookups compare. */
  datatype Address = Address(protocol: Protocol, text: string)

  datatype Interface = Interface(name: string, addresses: seq<Address>)

  /** `checkIpAddress`: only IPv4 and IPv6 addresses are looked up. */
  method CheckIpAddress(ip: Address, oldAddresses: seq<Address>) returns (disconnect: bool)
    ensures disconnect <==> ip.protocol != Other && forall k :: 0 <= k < |oldAddresses| ==>
        oldAddresses[k].text != ip.text
  {
    disconnect := false;
    if ip.protocol != Other {
      var i := 0;
      while i < |oldAddresses| && oldAddresses[i].text != ip.text
        invariant 0 <= i <= |oldAddresses|
        invariant forall k :: 0 <= k < i ==> oldAddresses[k].text != ip.text
      {
        i := i + 1;
      }
      disconnect := i == |oldAddresses|;
    }
  }

  /** Some address of the new interface is not among the old ones. */
  ghost predicate HasNewAddress(oldAddresses: seq<Address>, newAddresses: seq<Address>) {
    exists i :: 0 <= i < |newAddresses| && newAddresses[i].protocol != Other
                && forall k :: 0 <= k < |oldAddresses| ==> oldAddresses[k].text != newAddresses[i].text
  }

  ghost predicate AddressesDiffer(old_: Interface, new_: Interface) {
    |new_.addresses| != |old_.addresses| || HasNewAddress(old_.addresses, new_.addresses)
  }

  method CheckNetworkAddresses(old_: Interface, new_: Interface) returns (disconnect: bool)
    ensures disconnect <==> AddressesDiffer(old_, new_)
  {
    disconnect := false;
    if |new_.addresses| != |old_.addresses| {
      disconnect := true;
    } else {
      var i := 0;
      while i < |new_.addresses|
        invariant 0 <= i <= |new_.addresses|
        invariant disconnect <==> HasNewAddress(old_.addresses, new_.addresses[..i])
      {
        var isNew := CheckIpAddress(new_.addresses[i], old_.addresses);
        assert new_.addresses[..i + 1] == new_.addresses[..i] + [new_.addresses[i]];
        if HasNewAddress(old_.addresses, new_.addresses[..i]) {
          var j :| 0 <= j < i && new_.addresses[..i][j].protocol != Other
                   && forall k :: 0 <= k < |old_.addresses| ==> old_.addresses[k].text != new_.addresses[..i][j].text;
          assert new_.addresses[..i + 1][j] == new_.addresses[..i][j];
        }
        if isNew {
          assert new_.addresses[..i + 1][i] == new_.addresses[i];
        }
        disconnect := disconnect || isNew;
        i := i + 1;
      }
      assert new_.addresses[..i] == new_.addresses;
    }
  }

  /** The first interface of that name, if any. */
  function Lookup(active: seq<Interface>, name: string): (i: nat)
    ensures i <= |active|
    ensures i < |active| ==> active[i].name == name
    ensures forall k :: 0 <= k < i ==> active[k].name != name
  {
    if active == [] || active[0].name == name then 0 else 1 + Lookup(active[1..], name)
  }

  ghost predicate InterfaceDiffers(active: seq<Interface>, new_: Interface) {
    var i := Lookup(active, new_.name);
    i == |active| || AddressesDiffer(active[i], new_)
  }

  method CheckNetworkInterface(active: seq<Interface>, new_: Interface) returns (disconnect: bool)
    ensures disconnect <==> InterfaceDiffers(active, new_)
  {
    var i := 0;
    while i < |active| && active[i].name != new_.name
      invariant 0 <= i <= |active|
      invariant forall k :: 0 <= k < i ==> active[k].name != new_.name
    {
      i := i + 1;
    }
    if i == |active| {
      disconnect := true;
    } else {
      disconnect := CheckNetworkAddresses(active[i], new_);
    }
  }

  ghost predicate SomeInterfaceDiffers(active: seq<Interface>, newInterfaces: seq<Interface>) {
    exists i :: 0 <= i < |newInterfaces| && InterfaceDiffers(active, newInterfaces[i])
  }

  method CheckNetworkInterfaces(active: seq<Interface>, newInterfaces: seq<Interface>) returns (disconnect: bool)
    ensures disconnect <==> SomeInterfaceDiffers(active, newInterfaces)
  {
    disconnect := false;
    var i := 0;
    while i < |newInterfaces|
      invariant 0 <= i <= |newInterfaces|
      invariant disconnect <==> exists k :: 0 <= k < i && InterfaceDiffers(active, newInterfaces[k])
    {
      var differs := CheckNetworkInterface(active, newInterfaces[i]);
      disconnect := disconnect || differs;
      i := i + 1;
    }
  }

  // ----- What the test is meant to decide -----

  /** No interface listed twice. */
  ghost predicate DistinctNames(list: seq<Interface>) {
    forall i, j :: 0 <= i < j < |list| ==> list[i].name != list[j].name
  }

  /** Only IPv4 and IPv6 addresses, the ones that are looked up. */
  ghost predicate InternetOnly(addresses: seq<Address>) {
    forall i :: 0 <= i < |addresses| ==> addresses[i].protocol != Other
  }

  ghost predicate DistinctAddresses(addresses: seq<Address>) {
    forall i, j :: 0 <= i < j < |addresses| ==> addresses[i].text != addresses[j].text
  }

  function Texts(addresses: seq<Address>): set<string> {
    set i | 0 <= i < |addresses| :: addresses[i].text
  }

  function Names(list: seq<Interface>): set<string> {
    set i | 0 <= i < |list| :: list[i].name
  }

  /** The addresses of each interface, by name. */
  function AddressMap(list: seq<Interface>): map<string, set<string>> {
    map n | n in Names(list) :: var i := Lookup(list, n); if i < |list| then Texts(list[i].addresses) else {}
  }

  lemma TextsSnoc(addresses: seq<Address>)
    requires addresses != []
    ensures Texts(addresses) == Texts(addresses[..|addresses| - 1]) + {addresses[|addresses| - 1].text}
  {
    var init := addresses[..|addresses| - 1];
    assert forall i :: 0 <= i < |init| ==> addresses[i] == init[i];
  }

  lemma DistinctSnoc(addresses: seq<Address>)
    requires addresses != []
    ensures var init, last := addresses[..|addresses| - 1], addresses[|addresses| - 1];
            DistinctAddresses(addresses) <==> DistinctAddresses(init) && last.text !in Texts(init)
  {
    var init, last := addresses[..|addresses| - 1], addresses[|addresses| - 1];
    assert forall i :: 0 <= i < |init| ==> addresses[i] == init[i];
    if last.text in Texts(init) {
      var i :| 0 <= i < |init| && init[i].text == last.text;
      assert addresses[i].text == addresses[|addresses| - 1].text;
    }
  }

  lemma {:induction false} TextsAreNoMore(addresses: seq<Address>)
    ensures |Texts(addresses)| <= |addresses|
    ensures |Texts(addresses)| == |addresses| <==> DistinctAddresses(addresses)
    decreases |addresses|
  {
    if addresses == [] {
      assert Texts(addresses) == {};
    } else {
      var init, last := addresses[..|addresses| - 1], addresses[|addresses| - 1];
      TextsAreNoMore(init);
      TextsSnoc(addresses);
      DistinctSnoc(addresses);
      if last.text in Texts(init) {
        assert Texts(addresses) == Texts(init);
      }
    }
  }

  lemma NamesSnoc(list: seq<Interface>)
    requires list != []
    ensures Names(list) == Names(list[..|list| - 1]) + {list[|list| - 1].name}
  {
    var init := list[..|list| - 1];
    assert forall i :: 0 <= i < |init| ==> list[i] == init[i];
  }

  lemma {:induction false} DistinctNamesCount(list: seq<Interface>)
    requires DistinctNames(list)
    ensures |Names(list)| == |list|
    decreases |list|
  {
    if list == [] {
      assert Names(list) == {};
    } else {
      DistinctNamesCount(list[..|list| - 1]);
      NamesSnoc(list);
      assert list[|list| - 1].name !in Names(list[..|list| - 1]);
    }
  }

  // ----- One interface: what the test of its addresses decides -----

  /** How many listed addresses repeat another one. */
  function Repeats(addresses: seq<Address>): nat {
    TextsAreNoMore(addresses);
    |addresses| - |Texts(addresses)|
  }

  lemma NewAddressExactly(oldAddresses: seq<Address>, newAddresses: seq<Address>)
    requires InternetOnly(newAddresses)
    ensures HasNewAddress(oldAddresses, newAddresses) <==> !(Texts(newAddresses) <= Texts(oldAddresses))
  {
    if HasNewAddress(oldAddresses, newAddresses) {
      var i :| 0 <= i < |newAddresses|
               && forall k :: 0 <= k < |oldAddresses| ==> oldAddresses[k].text != newAddresses[i].text;
      assert newAddresses[i].text in Texts(newAddresses) - Texts(oldAddresses);
    }
  }

  /** A change of the address set is missed exactly when the lists are equally long, the new addresses are all
      old ones, and the lists repeat addresses a different number of times. */
  lemma ChangeMissedExactly(old_: Interface, new_: Interface)
    requires InternetOnly(new_.addresses)
    ensures !AddressesDiffer(old_, new_) && Texts(old_.addresses) != Texts(new_.addresses) <==>
            && |old_.addresses| == |new_.addresses|
            && Texts(new_.addresses) <= Texts(old_.addresses)
            && Repeats(new_.addresses) != Repeats(old_.addresses)
  {
    NewAddressExactly(old_.addresses, new_.addresses);
    if Texts(new_.addresses) <= Texts(old_.addresses) && |Texts(new_.addresses)| == |Texts(old_.addresses)| {
      SubsetOfSameSize(Texts(new_.addresses), Texts(old_.addresses));
    }
  }

  /** A change is reported where there is none exactly when the same addresses are repeated a different number
      of times. */
  lemma FalseAlarmExactly(old_: Interface, new_: Interface)
    requires InternetOnly(new_.addresses)
    ensures AddressesDiffer(old_, new_) && Texts(old_.addresses) == Texts(new_.addresses) <==>
            && Texts(old_.addresses) == Texts(new_.addresses)
            && Repeats(new_.addresses) != Repeats(old_.addresses)
  {
    NewAddressExactly(old_.addresses, new_.addresses);
  }

  /** With as many repeats as before, none in particular, the lookups need go one way only. */
  lemma AddressesDifferExactly(old_: Interface, new_: Interface)
    requires InternetOnly(new_.addresses) && Repeats(old_.addresses) == Repeats(new_.addresses)
    ensures AddressesDiffer(old_, new_) <==> Texts(old_.addresses) != Texts(new_.addresses)
  {
    ChangeMissedExactly(old_, new_);
    FalseAlarmExactly(old_, new_);
  }

  // ----- All interfaces -----

  /** The test of `checkNetworkInterfaces` on two non-empty lists. */
  ghost predicate Reported(active: seq<Interface>, list: seq<Interface>) {
    |active| != |list| || SomeInterfaceDiffers(active, list)
  }

  ghost predicate AllInternet(list: seq<Interface>) {
    forall i :: 0 <= i < |list| ==> InternetOnly(list[i].addresses)
  }

  /** Interface `i` of the new list stands in the old one, equally long and with no new address. */
  ghost predicate PassesUnseen(active: seq<Interface>, new_: Interface) {
    var j := Lookup(active, new_.name);
    && j < |active|
    && |active[j].addresses| == |new_.addresses|
    && Texts(new_.addresses) <= Texts(active[j].addresses)
  }

  ghost predicate RepeatsChanged(active: seq<Interface>, new_: Interface) {
    var j := Lookup(active, new_.name);
    j < |active| && Repeats(active[j].addresses) != Repeats(new_.addresses)
  }

  lemma InterfaceDiffersExactly(active: seq<Interface>, new_: Interface)
    requires InternetOnly(new_.addresses)
    ensures InterfaceDiffers(active, new_) <==> !PassesUnseen(active, new_)
  {
    var j := Lookup(active, new_.name);
    if j < |active| {
      NewAddressExactly(active[j].addresses, new_.addresses);
    }
  }

  lemma NamesMatch(active: seq<Interface>, list: seq<Interface>)
    requires DistinctNames(active) && DistinctNames(list) && |active| == |list|
    requires forall i :: 0 <= i < |list| ==> Lookup(active, list[i].name) < |active|
    ensures Names(active) == Names(list)
  {
    DistinctNamesCount(active);
    DistinctNamesCount(list);
    forall n | n in Names(list) ensures n in Names(active) {
      var i :| 0 <= i < |list| && list[i].name == n;
      assert active[Lookup(active, n)].name == n;
    }
    SubsetOfSameSize(Names(list), Names(active));
  }

  lemma EntryOf(list: seq<Interface>, i: nat)
    requires DistinctNames(list) && i < |list|
    ensures Lookup(list, list[i].name) == i
    ensures list[i].name in AddressMap(list) && AddressMap(list)[list[i].name] == Texts(list[i].addresses)
  {
    assert list[i].name in Names(list);
  }

  /** The interface stands in the old list with the same addresses. */
  ghost predicate Unchanged(active: seq<Interface>, new_: Interface) {
    var j := Lookup(active, new_.name);
    j < |active| && Texts(active[j].addresses) == Texts(new_.addresses)
  }

  lemma UnchangedInMap(active: seq<Interface>, list: seq<Interface>, i: nat)
    requires DistinctNames(active) && DistinctNames(list) && i < |list|
    ensures list[i].name in AddressMap(list)
    ensures Unchanged(active, list[i]) <==>
            list[i].name in AddressMap(active) && AddressMap(active)[list[i].name] == AddressMap(list)[list[i].name]
  {
    var n := list[i].name;
    EntryOf(list, i);
    var j := Lookup(active, n);
    if j < |active| {
      EntryOf(active, j);
    }
  }

  /** Same names: the maps agree exactly when each interface has the addresses it had. */
  lemma MapsAgree(active: seq<Interface>, list: seq<Interface>)
    requires DistinctNames(active) && DistinctNames(list) && Names(active) == Names(list)
    ensures AddressMap(active) == AddressMap(list) <==> forall i :: 0 <= i < |list| ==> Unchanged(active, list[i])
  {
    var before, after := AddressMap(active), AddressMap(list);
    if before == after {
      forall i | 0 <= i < |list| ensures Unchanged(active, list[i]) {
        UnchangedInMap(active, list, i);
      }
    }
    if forall i :: 0 <= i < |list| ==> Unchanged(active, list[i]) {
      KeysAreNames(active);
      KeysAreNames(list);
      forall n | n in Names(list) ensures before[n] == after[n] {
        var i :| 0 <= i < |list| && list[i].name == n;
        UnchangedInMap(active, list, i);
      }
      SameMaps(before, after);
    }
  }

  lemma SameMaps(a: map<string, set<string>>, b: map<string, set<string>>)
    requires a.Keys == b.Keys && forall n :: n in b.Keys ==> a[n] == b[n]
    ensures a == b
  {}

  /** A change of the map from names to addresses is missed exactly when there are as many interfaces, each of
      them passes, and some interface repeats addresses a different number of times. */
  lemma NetworkChangeMissedExactly(active: seq<Interface>, list: seq<Interface>)
    requires DistinctNames(active) && DistinctNames(list) && AllInternet(list)
    ensures !Reported(active, list) && AddressMap(active) != AddressMap(list) <==>
            && |active| == |list|
            && (forall i :: 0 <= i < |list| ==> PassesUnseen(active, list[i]))
            && exists i :: 0 <= i < |list| && RepeatsChanged(active, list[i])
  {
    UnreportedExactly(active, list);
    if |active| == |list| && forall i :: 0 <= i < |list| ==> PassesUnseen(active, list[i]) {
      assert forall i :: 0 <= i < |list| && PassesUnseen(active, list[i]) ==> Lookup(active, list[i].name) < |active|;
      NamesMatch(active, list);
      MapsAgree(active, list);
      forall i | 0 <= i < |list|
        ensures RepeatsChanged(active, list[i]) <==> !Unchanged(active, list[i])
      {
        assert PassesUnseen(active, list[i]);
        ChangeMissedExactly(active[Lookup(active, list[i].name)], list[i]);
        InterfaceDiffersExactly(active, list[i]);
      }
    }
  }

  lemma UnreportedExactly(active: seq<Interface>, list: seq<Interface>)
    requires AllInternet(list)
    ensures !Reported(active, list) <==>
            |active| == |list| && forall i :: 0 <= i < |list| ==> PassesUnseen(active, list[i])
  {
    forall i | 0 <= i < |list| ensures InterfaceDiffers(active, list[i]) <==> !PassesUnseen(active, list[i]) {
      InterfaceDiffersExactly(active, list[i]);
    }
  }

  /** A change is reported where the map has not changed exactly when some interface repeats addresses a
      different number of times. */
  lemma NetworkFalseAlarmExactly(active: seq<Interface>, list: seq<Interface>)
    requires DistinctNames(active) && DistinctNames(list) && AllInternet(list)
    requires AddressMap(active) == AddressMap(list)
    ensures Reported(active, list) <==> exists i :: 0 <= i < |list| && RepeatsChanged(active, list[i])
  {
    DistinctNamesCount(active);
    DistinctNamesCount(list);
    KeysAreNames(active);
    KeysAreNames(list);
    MapsAgree(active, list);
    UnreportedExactly(active, list);
    forall i | 0 <= i < |list| ensures PassesUnseen(active, list[i]) <==> !RepeatsChanged(active, list[i]) {
      var j := Lookup(active, list[i].name);
      assert Unchanged(active, list[i]);
    }
  }

  lemma KeysAreNames(list: seq<Interface>)
    ensures AddressMap(list).Keys == Names(list)
  {}

  /** What the whole test needs: no interface repeats addresses more or less often than before. */
  ghost predicate SteadyRepeats(active: seq<Interface>, list: seq<Interface>) {
    forall i :: 0 <= i < |list| ==> !RepeatsChanged(active, list[i])
  }

  /** Then the length test and the one-way lookups report a change exactly when the maps differ. */
  lemma ChangeDetectedExactly(active: seq<Interface>, list: seq<Interface>)
    requires DistinctNames(active) && DistinctNames(list) && AllInternet(list) && SteadyRepeats(active, list)
    ensures Reported(active, list) <==> AddressMap(active) != AddressMap(list)
  {
    NetworkChangeMissedExactly(active, list);
    if AddressMap(active) == AddressMap(list) {
      NetworkFalseAlarmExactly(active, list);
    }
  }

  /** Lists the test can be trusted with. */
  ghost predicate Trusted(active: seq<Interface>, list: seq<Interface>) {
    DistinctNames(active) && DistinctNames(list) && AllInternet(list) && SteadyRepeats(active, list)
  }

  /** Lists without repeated addresses, as systems normally report them, are steady. */
  lemma DistinctIsSteady(active: seq<Interface>, list: seq<Interface>)
    requires forall i :: 0 <= i < |active| ==> DistinctAddresses(active[i].addresses)
    requires forall i :: 0 <= i < |list| ==> DistinctAddresses(list[i].addresses)
    ensures SteadyRepeats(active, list)
  {
    forall i | 0 <= i < |list| ensures !RepeatsChanged(active, list[i]) {
      var j := Lookup(active, list[i].name);
      TextsAreNoMore(list[i].addresses);
      if j < |active| {
        TextsAreNoMore(active[j].addresses);
      }
    }
  }

  lemma OneInterface(name: string, addresses: seq<Address>)
    ensures AddressMap([Interface(name, addresses)]) == map[name := Texts(addresses)]
  {
    var list := [Interface(name, addresses)];
    assert list[0].name == name;
    assert Names(list) == {name};
    assert Lookup(list, name) == 0;
  }

  /** An input of the missed kind: [a, b] and [a, a] pass for the same. */
  lemma RepeatedAddressHidesChange(name: string, a: string, b: string)
    requires a != b
    ensures var before := [Interface(name, [Address(IPv4, a), Address(IPv4, b)])];
            var after := [Interface(name, [Address(IPv4, a), Address(IPv4, a)])];
            !Reported(before, after) && AddressMap(before) != AddressMap(after)
  {
    var two, same := [Address(IPv4, a), Address(IPv4, b)], [Address(IPv4, a), Address(IPv4, a)];
    var before, after := [Interface(name, two)], [Interface(name, same)];
    OneInterface(name, two);
    OneInterface(name, same);
    assert Lookup(before, name) == 0;
    assert two[0].text == a && two[1].text == b;
    assert !InterfaceDiffers(before, after[0]);
    assert b in Texts(two);
    assert b !in Texts(same);
    assert AddressMap(before)[name] != AddressMap(after)[name];
  }

  class MegaApplication {
    var appFinished: bool
    var networkConnectivity: bool
    var active: seq<Interface>
    var lastActiveTime: int
    var retries: nat

    const MAX_IDLE_TIME_MS := 600_000

    /** `checkNetworkInterfaces`, given the interfaces found and two readings of the clock: finding an
        interface counts as activity. */
    method CheckNetwork(found: seq<Interface>, foundAt: int, checkedAt: int)
      modifies this
      ensures appFinished == old(appFinished)
      ensures appFinished ==> active == old(active) && retries == old(retries) && lastActiveTime == old(lastActiveTime)
                              && networkConnectivity == old(networkConnectivity)
      ensures !appFinished ==> (networkConnectivity <==> found != [])
      ensures !appFinished && found != [] ==>
                (retries != old(retries) <==>
                 || !old(networkConnectivity)
                 || (old(active) != [] && Reported(old(active), found))
                 || checkedAt - foundAt > 600_000)
      ensures !appFinished && found == [] ==>
                (retries != old(retries) <==> checkedAt - old(lastActiveTime) > 600_000)
      ensures !appFinished ==> active == if retries != old(retries) || old(active) == [] then found else old(active)
      ensures !appFinished ==>
                && old(retries) <= retries <= old(retries) + 1
                && lastActiveTime ==
                   if retries != old(retries) then checkedAt else if found != [] then foundAt else old(lastActiveTime)
      ensures !appFinished && found != [] && Trusted(old(active), found) ==>
                && AddressMap(active) == AddressMap(found)
                && (old(active) != [] ==> (Reported(old(active), found) <==>
                    AddressMap(old(active)) != AddressMap(found)))
    {
      if appFinished {
        return;
      }
      var disconnect := false;
      if found != [] {
        lastActiveTime := foundAt;
      }
      if found != [] && !networkConnectivity {
        disconnect := true;
        networkConnectivity := true;
      }
      if Trusted(active, found) {
        ChangeDetectedExactly(active, found);
      }
      if found == [] {
        networkConnectivity := false;
      } else if active == [] {
        active := found;
      } else if |active| != |found| {
        disconnect := true;
      } else {
        var changed := CheckNetworkInterfaces(active, found);
        disconnect := disconnect || changed;
      }
      ReconnectIfNecessary(disconnect, found, checkedAt);
    }

    method ReconnectIfNecessary(disconnected: bool, found: seq<Interface>, now: int)
      modifies this`active, this`lastActiveTime, this`retries
      ensures var act := disconnected || now - old(lastActiveTime) > MAX_IDLE_TIME_MS;
              && active == (if act then found else old(active))
              && lastActiveTime == (if act then now else old(lastActiveTime))
              && retries == old(retries) + if act then 1 else 0
    {
      if disconnected || now - lastActiveTime > MAX_IDLE_TIME_MS {
        retries := retries + 1;
        active := found;
        lastActiveTime := now;
      }
    }
  }
}
