/**
 * The switch widgets of gui.py as objects whose fields change in place:
 * `SwitchWidget` (one switch: its 0/1 state, its hold-behaviour checkbox, its
 * name) and `SwitchboardWidget` (a bank of switches wired to one publish topic).
 * The `toggled` signal a switch emits is modelled as the `emitted` result of the
 * switch's handlers plus a running count; the board connects it to
 * `PublishState`. What the MQTT client receives is kept in `published`.
 */
module Switches {
  import opened Text
  import opened Codec

  class Switch {
    var state: Bit
    /** Whether the hold-behaviour checkbox is checked (momentary mode). */
    var hold: bool
    var name: string
    /** How many times this switch has emitted `toggled`. */
    ghost var toggledCount: nat

    constructor (name: string, hold: bool)
      ensures state == 0 && this.hold == hold && this.name == name && toggledCount == 0
    {
      state := 0;
      this.hold := hold;
      this.name := name;
      toggledCount := 0;
    }

    method Activate()
      modifies this`state, this`toggledCount
      ensures state == 1 && toggledCount == old(toggledCount) + 1
    {
      state := 1;
      toggledCount := toggledCount + 1;
    }

    method Deactivate()
      modifies this`state, this`toggledCount
      ensures state == 0 && toggledCount == old(toggledCount) + 1
    {
      state := 0;
      toggledCount := toggledCount + 1;
    }

    /** A press activates in hold mode and flips the state in latching mode; either
        way `toggled` is emitted exactly once. */
    method HandlePress() returns (emitted: bool)
      modifies this`state, this`toggledCount
      ensures state == if hold then 1 else 1 - old(state)
      ensures emitted && toggledCount == old(toggledCount) + 1
    {
      if hold {
        Activate();
      } else if state == 0 {
        Activate();
      } else {
        Deactivate();
      }
      emitted := true;
    }

    /** A release deactivates (and emits) only in hold mode. */
    method HandleRelease() returns (emitted: bool)
      modifies this`state, this`toggledCount
      ensures emitted == hold
      ensures state == if hold then 0 else old(state)
      ensures toggledCount == old(toggledCount) + if hold then 1 else 0
    {
      emitted := hold;
      if hold {
        Deactivate();
      }
    }

    /** A click on the hold checkbox: Qt has already flipped the check mark when
        the handler runs, and the handler forces the state to 0 without emitting. */
    method HandleModeChange()
      modifies this`state, this`hold
      ensures hold == !old(hold) && state == 0
    {
      hold := !hold;
      state := 0;
    }

    /** Sets the state without emitting `toggled`; any nonzero argument means 1. */
    method SetStateSilent(x: int)
      modifies this`state
      ensures state == (if x != 0 then 1 else 0)
    {
      state := Normalize(x);
    }
  }

  /** n hold flags, all clear. */
  function Released(n: nat): (r: seq<bool>)
    ensures |r| == n && forall k :: 0 <= k < n ==> !r[k]
  {
    seq(n, _ => false)
  }

  /** The bank left while `on_reset` works through it: switches before m are off. */
  function ZeroPrefix(s: seq<Bit>, m: nat): (r: seq<Bit>)
    requires m <= |s|
    ensures |r| == |s|
    ensures forall k :: 0 <= k < |s| ==> r[k] == if k < m then 0 else s[k]
  {
    AllSame(m, 0) + s[m..]
  }

  /** The values `on_reset` publishes, one per deactivated switch, starting from bank s. */
  function ResetTrace(s: seq<Bit>): (t: seq<nat>)
    ensures |t| == |s|
  {
    seq(|s|, k requires 0 <= k < |s| => Value(ZeroPrefix(s, k + 1)))
  }

  /** The last value published while resetting a non-empty bank is 0. */
  lemma ResetEndsAtZero(s: seq<Bit>)
    requires |s| > 0
    ensures ResetTrace(s)[|s| - 1] == 0
  {
    assert ZeroPrefix(s, |s|) == AllSame(|s|, 0);
    AllZeroValue(|s|);
  }

  class Board {
    const topic: string
    const switches: seq<Switch>
    ghost const Repr: set<Switch>
    /** The packed values handed to the MQTT client on `topic`, oldest first. */
    ghost var published: seq<nat>

    ghost predicate Valid() {
      && Repr == (set s | s in switches)
      && forall i, j :: 0 <= i < j < |switches| ==> switches[i] != switches[j]
    }

    function States(): (r: seq<Bit>)
      reads switches
      ensures |r| == |switches|
      ensures forall k :: 0 <= k < |switches| ==> r[k] == switches[k].state
    {
      seq(|switches|, k reads switches requires 0 <= k < |switches| => switches[k].state)
    }

    function Holds(): (r: seq<bool>)
      reads switches
      ensures |r| == |switches|
      ensures forall k :: 0 <= k < |switches| ==> r[k] == switches[k].hold
    {
      seq(|switches|, k reads switches requires 0 <= k < |switches| => switches[k].hold)
    }

    function Names(): (r: seq<string>)
      reads switches
      ensures |r| == |switches|
      ensures forall k :: 0 <= k < |switches| ==> r[k] == switches[k].name
    {
      seq(|switches|, k reads switches requires 0 <= k < |switches| => switches[k].name)
    }

    /** One inactive, latching switch per name. */
    constructor (topic: string, names: seq<string>)
      ensures Valid() && fresh(Repr)
      ensures this.topic == topic && published == []
      ensures Names() == names
      ensures States() == AllSame(|names|, 0)
      ensures forall k :: 0 <= k < |names| ==> !switches[k].hold && switches[k].toggledCount == 0
    {
      var ss: seq<Switch> := [];
      var i := 0;
      while i < |names|
        invariant 0 <= i <= |names| && |ss| == i
        invariant forall k :: 0 <= k < i ==> fresh(ss[k])
        invariant forall k, l :: 0 <= k < l < i ==> ss[k] != ss[l]
        invariant forall k :: 0 <= k < i ==>
          ss[k].name == names[k] && ss[k].state == 0 && !ss[k].hold && ss[k].toggledCount == 0
      {
        var sw := new Switch(names[i], false);
        ss := ss + [sw];
        i := i + 1;
      }
      this.topic := topic;
      switches := ss;
      Repr := set s | s in ss;
      published := [];
    }

    /** `publish_state`: the whole bank, packed, goes to the client. */
    method PublishState()
      requires Valid() && |switches| > 0
      modifies this`published
      ensures published == old(published) + [Value(States())]
    {
      var v := Encode(States());
      published := published + [v];
    }

    /** A press on switch j; its one `toggled` publishes the new bank. */
    method Press(j: nat)
      requires Valid() && j < |switches|
      modifies switches[j], this`published
      ensures States() == old(States())[j := if old(switches[j].hold) then 1 else 1 - old(switches[j].state)]
      ensures Holds() == old(Holds()) && Names() == old(Names())
      ensures published == old(published) + [Value(States())]
      ensures switches[j].toggledCount == old(switches[j].toggledCount) + 1
    {
      var emitted := switches[j].HandlePress();
      if emitted {
        PublishState();
      }
    }

    /** A release of switch j publishes only when the switch is in hold mode. */
    method Release(j: nat)
      requires Valid() && j < |switches|
      modifies switches[j], this`published
      ensures States() == if old(switches[j].hold) then old(States())[j := 0] else old(States())
      ensures Holds() == old(Holds()) && Names() == old(Names())
      ensures published == old(published) + if old(switches[j].hold) then [Value(States())] else []
    {
      var emitted := switches[j].HandleRelease();
      if emitted {
        PublishState();
      }
    }

    /** A click on switch j's hold checkbox: state forced to 0, nothing published. */
    method ModeChange(j: nat)
      requires Valid() && j < |switches|
      modifies switches[j]
      ensures States() == old(States())[j := 0]
      ensures Holds() == old(Holds())[j := !old(switches[j].hold)]
      ensures Names() == old(Names()) && published == old(published)
    {
      switches[j].HandleModeChange();
    }

    /**
     * `apply_value` as written: the value is padded to twelve binary digits and
     * digit i is written silently to switch |switches| - 1 - i. When the board has
     * more switches than digits the loop stops with an IndexError (`ok` false)
     * after updating the switches it reached.
     */
    method ApplyValueAsWritten(v: nat) returns (ok: bool)
      requires Valid()
      modifies Repr
      ensures ok == AppliedAsWritten(v, |switches|).Some?
      ensures States() == AfterApplyValue(v, old(States()))
      ensures forall k :: 0 <= k < |switches| ==>
        && switches[k].hold == old(switches[k].hold)
        && switches[k].name == old(switches[k].name)
        && switches[k].toggledCount == old(switches[k].toggledCount)
      ensures published == old(published)
    {
      ghost var s0 := States();
      ok := ApplyPadded(v, BankWidth);
      forall k | 0 <= k < |switches| ensures States()[k] == AfterApplyValue(v, s0)[k] {
      }
    }

    /** `apply_value` with the padding width as a parameter. */
    method ApplyPadded(v: nat, width: nat) returns (ok: bool)
      requires Valid()
      modifies Repr
      ensures ok == AppliedPadded(v, |switches|, width).Some?
      ensures ok ==> States() == AppliedPadded(v, |switches|, width).value
      ensures forall k :: 0 <= k < |switches| ==>
        var i := |switches| - 1 - k;
        var bits := PaddedBin(v, width);
        switches[k].state == if i < |bits| then DigitBit(bits, i) else old(switches[k].state)
      ensures forall k :: 0 <= k < |switches| ==>
        && switches[k].hold == old(switches[k].hold)
        && switches[k].name == old(switches[k].name)
        && switches[k].toggledCount == old(switches[k].toggledCount)
    {
      var bits := PaddedBin(v, width);
      ok := WriteDigits(bits);
      if ok {
        var n := |switches|;
        var want := AppliedPadded(v, n, width).value;
        forall k | 0 <= k < n ensures States()[k] == want[k] {
          assert switches[k].state == DigitBit(bits, n - 1 - k);
        }
        assert States() == want;
      }
    }

    /**
     * The loop of `apply_value`: digit i of `bits` is written silently to switch
     * |switches| - 1 - i, until the switches or (IndexError, `ok` false) the
     * digits run out.
     */
    method WriteDigits(bits: string) returns (ok: bool)
      requires Valid() && AllDigitsIn(bits, 2)
      modifies Repr
      ensures ok == (|switches| <= |bits|)
      ensures forall k :: 0 <= k < |switches| ==>
        switches[k].state == if |switches| - 1 - k < |bits| then DigitBit(bits, |switches| - 1 - k)
                             else old(switches[k].state)
      ensures forall k :: 0 <= k < |switches| ==>
        && switches[k].hold == old(switches[k].hold)
        && switches[k].name == old(switches[k].name)
        && switches[k].toggledCount == old(switches[k].toggledCount)
    {
      var n := |switches|;
      var i := 0;
      while i < n
        invariant 0 <= i <= n && i <= |bits|
        invariant forall k :: 0 <= k < n ==>
          switches[k].state == if n - 1 - k < i then DigitBit(bits, n - 1 - k) else old(switches[k].state)
        invariant forall k :: 0 <= k < n ==>
          && switches[k].hold == old(switches[k].hold)
          && switches[k].name == old(switches[k].name)
          && switches[k].toggledCount == old(switches[k].toggledCount)
      {
        if i >= |bits| {
          return false;
        }
        WriteBit(n - 1 - i, DigitValue(bits[i]));
        i := i + 1;
      }
      ok := true;
    }

    /**
     * `apply_value` as evidently intended: switch k takes bit k of v, whatever the
     * number of switches, silently.
     */
    method ApplyValue(v: nat)
      requires Valid()
      modifies Repr
      ensures States() == LowBits(v, |switches|)
      ensures forall k :: 0 <= k < |switches| ==>
        && switches[k].hold == old(switches[k].hold)
        && switches[k].name == old(switches[k].name)
        && switches[k].toggledCount == old(switches[k].toggledCount)
      ensures published == old(published)
    {
      var n := |switches|;
      var rest := v;
      var j := 0;
      while j < n
        invariant 0 <= j <= n
        invariant LowBits(v, n)[j..] == LowBits(rest, n - j)
        invariant forall k :: 0 <= k < n ==>
          switches[k].state == if k < j then LowBits(v, n)[k] else old(switches[k].state)
        invariant forall k :: 0 <= k < n ==>
          && switches[k].hold == old(switches[k].hold)
          && switches[k].name == old(switches[k].name)
          && switches[k].toggledCount == old(switches[k].toggledCount)
      {
        WriteBit(j, rest % 2);
        rest := rest / 2;
        j := j + 1;
      }
      assert States() == LowBits(v, n);
    }

    /** `set_state_silent` on switch k; no other switch changes. */
    method WriteBit(k: nat, x: int)
      requires Valid() && k < |switches|
      modifies switches[k]
      ensures forall i :: 0 <= i < |switches| ==>
        switches[i].state == if i == k then Normalize(x) else old(switches[i].state)
      ensures forall i :: 0 <= i < |switches| ==>
        && switches[i].hold == old(switches[i].hold)
        && switches[i].name == old(switches[i].name)
        && switches[i].toggledCount == old(switches[i].toggledCount)
    {
      switches[k].SetStateSilent(x);
    }

    /**
     * The switch loop of `on_reset`: each switch is deactivated (its `toggled`
     * publishes the bank as it then stands) and its hold checkbox is cleared.
     */
    method Reset()
      requires Valid()
      modifies Repr, this`published
      ensures States() == AllSame(|switches|, 0)
      ensures forall k :: 0 <= k < |switches| ==>
        && !switches[k].hold
        && switches[k].name == old(switches[k].name)
        && switches[k].toggledCount == old(switches[k].toggledCount) + 1
      ensures published == old(published) + ResetTrace(old(States()))
    {
      var n := |switches|;
      ghost var s0 := States();
      ghost var p0 := published;
      var k := 0;
      while k < n
        invariant 0 <= k <= n
        invariant forall i :: 0 <= i < n ==> switches[i].state == if i < k then 0 else s0[i]
        invariant forall i :: 0 <= i < n ==>
          && switches[i].hold == (i >= k && old(switches[i].hold))
          && switches[i].name == old(switches[i].name)
          && switches[i].toggledCount == old(switches[i].toggledCount) + (if i < k then 1 else 0)
        invariant published == p0 + ResetTrace(s0)[..k]
      {
        ResetSwitch(s0, k);
        assert ResetTrace(s0)[..k + 1] == ResetTrace(s0)[..k] + [ResetTrace(s0)[k]];
        k := k + 1;
      }
      assert ResetTrace(s0)[..n] == ResetTrace(s0);
      assert States() == AllSame(n, 0);
    }

    /** One step of `on_reset`: switch k is deactivated, which publishes trace entry k,
        and its hold checkbox is cleared. */
    method ResetSwitch(ghost s0: seq<Bit>, k: nat)
      requires Valid() && k < |switches| == |s0|
      requires forall i :: 0 <= i < |switches| ==> switches[i].state == if i < k then 0 else s0[i]
      modifies switches[k], this`published
      ensures forall i :: 0 <= i < |switches| ==> switches[i].state == if i <= k then 0 else s0[i]
      ensures !switches[k].hold && switches[k].name == old(switches[k].name)
      ensures switches[k].toggledCount == old(switches[k].toggledCount) + 1
      ensures published == old(published) + [ResetTrace(s0)[k]]
    {
      switches[k].Deactivate();
      assert States() == ZeroPrefix(s0, k + 1);
      PublishState();
      switches[k].hold := false;
    }
  }
}
