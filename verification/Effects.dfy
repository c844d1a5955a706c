/**
 The scheduler's contact with the outside world. Handler calls and the Arduino
 pin calls (`pinMode`, `digitalWrite`, `analogWrite`) are not performed but
 recorded, in order, as `Event`s; the values `digitalRead` returns are inputs.
 */
module Effects {

  /** Identity of a handler function pointer. Handler bodies are not modelled. */
  type FnId = nat

  /** The opaque `void*` context handed back to a handler; 0 stands for NULL. */
  type Context = nat

  const NULL: Context := 0

  /** Arduino's digital levels. */
  const LOW: int := 0
  const HIGH: int := 1

  /** A value `digitalRead` can return: LOW or HIGH. */
  type Level = v: int | v == 0 || v == 1

  datatype Mode = Input | Output

  datatype Event =
    | PinMode(pin: nat, mode: Mode)
    | DigitalWrite(pin: nat, value: int)
    | AnalogWrite(pin: nat, value: int)
    | Invoke(slot: nat, fn: FnId, context: Context)
  {
    /** The slot or pin the event concerns. */
    function Subject(): nat {
      match this
      case PinMode(p, _) => p
      case DigitalWrite(p, _) => p
      case AnalogWrite(p, _) => p
      case Invoke(s, _, _) => s
    }
  }

  /** A result together with the events produced while computing it. */
  datatype Emitted<+T> = Emitted(value: T, events: seq<Event>)

  /** Events concern strictly increasing slots or pins (each at most once, in index order). */
  predicate Ascending(events: seq<Event>) {
    forall k, l :: 0 <= k < l < |events| ==> events[k].Subject() < events[l].Subject()
  }

  /** No event of `events` invokes the handler in slot `i`. */
  predicate NoInvokeOf(events: seq<Event>, i: nat) {
    forall k :: 0 <= k < |events| ==> !(events[k].Invoke? && events[k].slot == i)
  }

  /** No event of `events` writes to pin `i`. */
  predicate NoWriteTo(events: seq<Event>, i: nat) {
    forall k :: 0 <= k < |events| ==>
      !((events[k].DigitalWrite? || events[k].AnalogWrite?) && events[k].pin == i)
  }

  /** How many events of `events` invoke the handler in slot `i`. */
  function InvokeCount(events: seq<Event>, i: nat): (n: nat)
    ensures n <= |events|
    ensures n == 0 <==> NoInvokeOf(events, i)
  {
    if events == [] then 0
    else
      (if events[0].Invoke? && events[0].slot == i then 1 else 0)
      + InvokeCount(events[1..], i)
  }

  lemma {:induction false} InvokeCountAppend(a: seq<Event>, b: seq<Event>, i: nat)
    ensures InvokeCount(a + b, i) == InvokeCount(a, i) + InvokeCount(b, i)
  {
    if a == [] {
      assert a + b == b;
    } else {
      assert (a + b)[1..] == a[1..] + b;
      InvokeCountAppend(a[1..], b, i);
    }
  }

  /** In an ascending event list, the event at `k` is the only one about its subject. */
  lemma InvokeCountSplit(events: seq<Event>, k: nat, i: nat)
    requires Ascending(events) && k < |events| && events[k].Subject() == i && events[k].Invoke?
    ensures InvokeCount(events, i) == 1
  {
    assert events == events[..k] + [events[k]] + events[k + 1..];
    InvokeCountAppend(events[..k] + [events[k]], events[k + 1..], i);
    InvokeCountAppend(events[..k], [events[k]], i);
    assert InvokeCount([events[k]], i) == 1 by {
      assert [events[k]][1..] == [];
    }
    assert NoInvokeOf(events[..k], i) by {
      forall l | 0 <= l < k ensures events[..k][l].Subject() < i {
        assert events[..k][l] == events[l];
      }
    }
    var tail := events[k + 1..];
    assert NoInvokeOf(tail, i) by {
      forall l | 0 <= l < |tail| ensures tail[l].Subject() > i {
        assert tail[l] == events[k + 1 + l];
      }
    }
  }
}
