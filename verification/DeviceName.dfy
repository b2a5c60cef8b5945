/** `DeviceName`: setting the device name, with a counter appended while the servers answer that it is taken. */
module DeviceName {
  import opened Sets
  import Decimal

  function WithSuffix(base: string, k: nat): string {
    base + " - " + Decimal.Print(k)
  }

  /** The names tried, in order: the name as given, then the base with a growing counter. */
  function Candidate(first: string, base: string, suffix: nat, k: nat): string {
    if k == 0 then first else WithSuffix(base, suffix + k)
  }

  /** The position of the first candidate that is not taken. */
  ghost predicate FirstFree(taken: set<string>, first: string, base: string, suffix: nat, n: nat) {
    && Candidate(first, base, suffix, n) !in taken
    && forall k :: 0 <= k < n ==> Candidate(first, base, suffix, k) in taken
  }

  /** The `n` names asked for after `suffix`, in order. */
  function Numbering(base: string, suffix: nat, n: nat): (r: seq<string>)
    ensures |r| == n
  {
    if n == 0 then [] else Numbering(base, suffix, n - 1) + [WithSuffix(base, suffix + n)]
  }

  lemma SuffixesDiffer(base: string, a: nat, b: nat)
    requires WithSuffix(base, a) == WithSuffix(base, b)
    ensures a == b
  {
    var p := base + " - ";
    assert Decimal.Print(a) == WithSuffix(base, a)[|p|..];
    assert Decimal.Print(b) == WithSuffix(base, b)[|p|..];
    Decimal.PrintInjective(a, b);
  }

  /** The names numbered above `low` up to `high`. */
  function Numbered(base: string, low: nat, high: nat): set<string> {
    set k | low < k <= high :: WithSuffix(base, k)
  }

  lemma {:induction false} NumberedCount(base: string, low: nat, high: nat)
    requires low <= high
    ensures |Numbered(base, low, high)| == high - low
    decreases high
  {
    if low == high {
      assert Numbered(base, low, high) == {};
    } else {
      NumberedCount(base, low, high - 1);
      assert Numbered(base, low, high) == Numbered(base, low, high - 1) + {WithSuffix(base, high)};
      forall k | low < k <= high - 1 ensures WithSuffix(base, k) != WithSuffix(base, high) {
        if WithSuffix(base, k) == WithSuffix(base, high) {
          SuffixesDiffer(base, k, high);
          assert false;
        }
      }
    }
  }

  /** No candidate with a counter is the first one again. */
  ghost predicate Fresh(first: string, base: string) {
    forall k: nat :: WithSuffix(base, k) != first
  }

  /** Candidates are distinct, so no more can be found taken than there are taken names. */
  lemma TakenRunIsShort(taken: set<string>, first: string, base: string, suffix: nat, n: nat)
    requires forall k :: 0 <= k < n ==> Candidate(first, base, suffix, k) in taken
    ensures n <= |taken| + 1
    ensures Fresh(first, base) ==> n <= |taken|
  {
    if n > 0 {
      var numbered := Numbered(base, suffix, suffix + n - 1);
      NumberedCount(base, suffix, suffix + n - 1);
      forall name | name in numbered ensures name in taken {
        var k :| suffix < k <= suffix + n - 1 && name == WithSuffix(base, k);
        assert name == Candidate(first, base, suffix, k - suffix);
      }
      SubsetSize(numbered, taken);
      assert Candidate(first, base, suffix, 0) in taken;
      if Fresh(first, base) {
        assert first !in numbered;
        SubsetSize(numbered + {first}, taken);
      }
    }
  }

  lemma FirstIsFresh(name: string, base: string)
    requires name == [] || name == base
    ensures Fresh(name, base)
  {
    forall k: nat ensures WithSuffix(base, k) != name {
      assert |WithSuffix(base, k)| > |base|;
    }
  }

  datatype Answer = API_OK | API_EEXIST | API_OTHER

  class DeviceName {
    const defaultName: string
    var deviceName: string
    var userChosenName: string
    var nameSuffix: nat
    /** The names asked of the servers, and the names announced with `attributeReady`. */
    var requests: seq<string>
    var announced: seq<string>

    constructor (defaultName: string)
      ensures this.defaultName == defaultName && deviceName == defaultName
      ensures userChosenName == [] && nameSuffix == 0 && requests == [] && announced == []
    {
      this.defaultName, deviceName := defaultName, defaultName;
      userChosenName, nameSuffix, requests, announced := [], 0, [], [];
    }

    function Base(): string
      reads this
    {
      if userChosenName == [] then defaultName else userChosenName
    }

    method SetDeviceName(name: string) returns (changed: bool)
      modifies this
      ensures changed <==> name != old(deviceName)
      ensures deviceName == name && nameSuffix == old(nameSuffix) && announced == old(announced)
      ensures changed ==> userChosenName == name && requests == old(requests) + [name]
      ensures !changed ==> userChosenName == old(userChosenName) && requests == old(requests)
    {
      if name == deviceName {
        return false;
      }
      userChosenName := name;
      deviceName := name;
      SetDeviceNameAttribute();
      return true;
    }

    method SetDeviceNameAttribute()
      modifies this`requests
      ensures requests == old(requests) + [deviceName]
    {
      requests := requests + [deviceName];
    }

    method ProcessSetDeviceNameCallback(name: string, answer: Answer)
      modifies this
      ensures userChosenName == old(userChosenName)
      ensures answer == API_OK ==>
                deviceName == name && nameSuffix == 0 && announced == old(announced) + [name] &&
                    requests == old(requests)
      ensures answer == API_EEXIST ==>
                && nameSuffix == old(nameSuffix) + 1
                && deviceName == WithSuffix(Base(), nameSuffix) == Base() + " - " + Decimal.Print(nameSuffix)
                && requests == old(requests) + [deviceName] && announced == old(announced)
      ensures answer == API_OTHER ==>
                deviceName == old(deviceName) && nameSuffix == old(nameSuffix) && requests == old(requests) &&
                    announced == old(announced)
    {
      if answer == API_OK {
        deviceName := name;
        announced := announced + [name];
        nameSuffix := 0;
      } else if answer == API_EEXIST {
        nameSuffix := nameSuffix + 1;
        deviceName := Base() + " - " + Decimal.Print(nameSuffix);
        SetDeviceNameAttribute();
      }
    }

    /** The exchange that follows a request for `deviceName`, when the servers refuse exactly the taken
        names: it ends with the first free candidate, announced and in force, after one request for each
        candidate up to it. */
    method Settle(taken: set<string>) returns (n: nat)
      requires requests != [] && requests[|requests| - 1] == deviceName
      modifies this
      ensures FirstFree(taken, old(deviceName), old(Base()), old(nameSuffix), n)
      ensures deviceName == Candidate(old(deviceName), old(Base()), old(nameSuffix), n)
      ensures nameSuffix == 0 && announced == old(announced) + [deviceName] && userChosenName == old(userChosenName)
      ensures requests == old(requests) + Numbering(old(Base()), old(nameSuffix), n) && n <= |taken| + 1
      ensures Fresh(old(deviceName), old(Base())) ==> n <= |taken|
    {
      ghost var first, base, suffix := deviceName, Base(), nameSuffix;
      n := 0;
      while deviceName in taken
        invariant deviceName == Candidate(first, base, suffix, n)
        invariant nameSuffix == suffix + n && Base() == base && userChosenName == old(userChosenName)
        invariant announced == old(announced) && requests == old(requests) + Numbering(base, suffix, n)
        invariant forall k :: 0 <= k < n ==> Candidate(first, base, suffix, k) in taken
        invariant n <= |taken| + 1
        decreases |taken| + 1 - n
      {
        TakenRunIsShort(taken, first, base, suffix, n + 1);
        ProcessSetDeviceNameCallback(deviceName, API_EEXIST);
        n := n + 1;
      }
      TakenRunIsShort(taken, first, base, suffix, n);
      ProcessSetDeviceNameCallback(deviceName, API_OK);
    }

    /** A name the user chose: settled within |taken| + 1 requests. */
    method ChooseName(name: string, taken: set<string>) returns (n: nat)
      requires name != deviceName
      modifies this
      ensures n <= |taken|
      ensures requests == old(requests) + [name] + Numbering(if name == [] then defaultName
          else name, old(nameSuffix), n)
      ensures FirstFree(taken, name, if name == [] then defaultName else name, old(nameSuffix), n)
      ensures deviceName == Candidate(name, if name == [] then defaultName else name, old(nameSuffix), n)
      ensures announced == old(announced) + [deviceName] && userChosenName == name && nameSuffix == 0
    {
      var changed := SetDeviceName(name);
      FirstIsFresh(name, Base());
      n := Settle(taken);
    }
  }
}
