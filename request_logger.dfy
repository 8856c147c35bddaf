/**
 * The request logger middleware's two helpers: a wrapping request-ID counter rendered as
 * five lower-case hex digits, and the colour band of an HTTP status code. Colours are tags;
 * the log line itself is not modelled.
 */
module RequestLogger {
  import opened Eav
  import opened JsText

  /** One more than the largest id the counter hands out before it wraps. */
  const IdSpace: nat := 0x100000

  /** `n.toString(16).padStart(5, '0')`: at least five characters, all lower-case hex digits. */
  function RequestId(n: nat): (id: string)
    ensures |id| >= 5 && forall i :: 0 <= i < |id| ==> IsLowerHexDigit(id[i])
  {
    var hex := NatToText(n, 16);
    var id := PadStart(hex, 5, '0');
    assert forall i :: |id| - |hex| <= i < |id| ==> id[i] == hex[i - (|id| - |hex|)];
    id
  }

  /**
   * The counter after one call that started from `c`: it wraps right after handing out the
   * last five-digit id. The code tests the rendered id against `fffff`; `SuccessorWraps` shows
   * that test holds exactly at this counter.
   */
  function Successor(c: nat): nat {
    if c == IdSpace - 1 then 0 else c + 1
  }

  /** The counter after `k` calls that started from `c`. */
  function CounterAfter(c: nat, k: nat): nat {
    if k == 0 then c else Successor(CounterAfter(c, k - 1))
  }

  /** The logger's static state: the next id to hand out. */
  class Logger {
    var currentID: nat

    ghost predicate Valid()
      reads this
    {
      currentID < IdSpace
    }

    constructor ()
      ensures Valid() && currentID == 0
    {
      currentID := 0;
    }

    /** Returns the current counter as an id and advances the counter, wrapping after `fffff`. */
    method GetRequestID() returns (id: string)
      requires Valid()
      modifies this
      ensures Valid()
      ensures id == RequestId(old(currentID)) && |id| == 5
      ensures forall i :: 0 <= i < 5 ==> IsLowerHexDigit(id[i])
      ensures currentID == Successor(old(currentID))
      ensures currentID == (old(currentID) + 1) % IdSpace
    {
      id := NatToText(currentID, 16);
      id := PadStart(id, 5, '0');
      SuccessorWraps(currentID);
      RequestIdShape(currentID);
      currentID := currentID + 1;
      if id == "fffff" {
        currentID := 0;
      }
    }
  }

  /** Below the wrap point an id has exactly five lower-case hex digits, and they denote the counter. */
  lemma RequestIdShape(n: nat)
    requires n < IdSpace
    ensures |RequestId(n)| == 5
    ensures forall i :: 0 <= i < 5 ==> IsDigitIn(RequestId(n)[i], 16) && IsLowerHexDigit(RequestId(n)[i])
    ensures ValueIn(RequestId(n), 16) == n
  {
    var h := NatToText(n, 16);
    assert Pow(16, 5) == IdSpace;
    NatToTextFits(n, 16, 5);
    NatToTextDenotes(n, 16);
    var pad := Repeat('0', 5 - |h|);
    assert RequestId(n) == pad + h;
    ValueOfZeroPadded(5 - |h|, h, 16);
  }

  /** At or past the wrap point the rendering has at least six digits. */
  lemma WideIdAfterWrap(n: nat)
    requires n >= IdSpace
    ensures |RequestId(n)| >= 6
  {
    NatToTextBelow(n, 16);
    var k := |NatToText(n, 16)|;
    assert Pow(16, 5) == IdSpace;
    if k <= 5 {
      PowMono(16, k, 5);
      assert false;
    }
  }

  lemma {:induction false} PowMono(b: nat, i: nat, j: nat)
    requires b >= 1 && i <= j
    ensures Pow(b, i) <= Pow(b, j)
    decreases j
  {
    if i < j {
      PowMono(b, i, j - 1);
      MulMono(1, b, Pow(b, j - 1));
    }
  }

  /** Two different counters below the wrap point never share an id. */
  lemma RequestIdInjective(m: nat, n: nat)
    requires m < IdSpace && n < IdSpace && m != n
    ensures RequestId(m) != RequestId(n)
  {
    RequestIdShape(m);
    RequestIdShape(n);
  }

  /** The counter wraps exactly after handing out the last id, `fffff`. */
  lemma SuccessorWraps(c: nat)
    ensures RequestId(c) == "fffff" <==> c == IdSpace - 1
  {
    if c >= IdSpace {
      WideIdAfterWrap(c);
    } else {
      RequestIdShape(c);
      HexValueOfFs();
      LastIdIsFs();
    }
  }

  /** The last id before the wrap is `fffff`. */
  lemma LastIdIsFs()
    ensures RequestId(IdSpace - 1) == "fffff"
  {
    NatToTextStep(0xfffff, 16);
    NatToTextStep(0xffff, 16);
    NatToTextStep(0xfff, 16);
    NatToTextStep(0xff, 16);
    assert NatToText(0xf, 16) == "f";
  }

  lemma HexValueOfFs()
    ensures ValueIn("fffff", 16) == IdSpace - 1
  {
    var f := "fffff";
    assert f[..4] == "ffff";
    assert "ffff"[..3] == "fff";
    assert "fff"[..2] == "ff";
    assert "ff"[..1] == "f";
    assert "f"[..0] == "";
    assert ValueIn("f", 16) == 15;
    assert ValueIn("ff", 16) == 0xff;
    assert ValueIn("fff", 16) == 0xfff;
    assert ValueIn("ffff", 16) == 0xffff;
  }

  lemma ModSuccessor(x: nat)
    ensures (x % IdSpace + 1) % IdSpace == (x + 1) % IdSpace
  {
  }

  /** From any counter below the wrap point, `k` calls leave the counter at `(c + k) mod 0x100000`. */
  lemma {:induction false} CounterAfterIsModular(c: nat, k: nat)
    requires c < IdSpace
    ensures CounterAfter(c, k) == (c + k) % IdSpace
  {
    if k > 0 {
      CounterAfterIsModular(c, k - 1);
      ModSuccessor(c + k - 1);
    }
  }

  /** Within one cycle of 0x100000 calls the ids handed out are pairwise distinct. */
  lemma IdsDistinctWithinCycle(c: nat, i: nat, j: nat)
    requires c < IdSpace && i < j < IdSpace
    ensures RequestId(CounterAfter(c, i)) != RequestId(CounterAfter(c, j))
  {
    CounterAfterIsModular(c, i);
    CounterAfterIsModular(c, j);
    RequestIdInjective(CounterAfter(c, i), CounterAfter(c, j));
  }

  /** The colour tags the logger prints a status code in. */
  datatype Color = Blue | Green | Cyan | Red

  /** The colour band of a status code; codes above 599 get no colour (`undefined`). */
  function StatusCodeColor(code: int): (r: Option<Color>)
    ensures r == Some(Blue) <==> code < 200
    ensures r == Some(Green) <==> 200 <= code < 300
    ensures r == Some(Cyan) <==> 300 <= code < 400
    ensures r == Some(Red) <==> 400 <= code < 600
    ensures r == None <==> code >= 600
  {
    if code <= 199 then Some(Blue)
    else if code <= 299 then Some(Green)
    else if code <= 399 then Some(Cyan)
    else if code <= 599 then Some(Red)
    else None
  }
}
