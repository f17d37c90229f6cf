/**
 The 16550 UART and its interrupt line. The line's sink may refuse a change; an error to refuse with, or none,
 is a parameter of every operation that can reach it, and the registers roll back with the line.
 */
module Serial {
  import opened Base

  // ----- Interrupt line -----

  class Irq {
    var level: bool

    constructor ()
      ensures !level
    {
      level := false;
    }

    /** The level follows the request only when the sink accepts the change; no change asks nothing of the sink. */
    method Set(high: bool, sink: Option<Errno>) returns (r: Result<()>)
      modifies this
      ensures r == if old(level) == high || sink.None? then Ok(()) else Err(sink.value)
      ensures level == if r.Ok? then high else old(level)
    {
      if level == high {
        return Ok(());
      }
      if sink.Some? {
        return Err(sink.value);
      }
      level := high;
      r := Ok(());
    }

    /** High, then low. A refusal on the way down leaves the line high. */
    method Pulse(up: Option<Errno>, down: Option<Errno>) returns (r: Result<()>)
      modifies this
      ensures r == if old(level) then Err(EINVAL) else if up.Some? then Err(up.value)
                   else if down.Some? then Err(down.value) else Ok(())
      ensures level <==> old(level) || (up.None? && down.Some?)
    {
      if level {
        return Err(EINVAL);
      }
      r := Set(true, up);
      if r.Ok? {
        r := Set(false, down);
      }
    }
  }

  // ----- UART -----

  const DLAB: nat := 0x80
  const IDLE: nat := 0x60        // transmitter holding register and transmitter empty

  predicate Receives(ier: nat, lsr: nat) {
    ier % 2 == 1 && lsr % 2 == 1
  }

  predicate Transmits(ier: nat) {
    ier / 2 % 2 == 1
  }

  predicate Pending(ier: nat, lsr: nat) {
    Receives(ier, lsr) || Transmits(ier)
  }

  function Identification(ier: nat, lsr: nat): u8 {
    if Receives(ier, lsr) then 4 else if Transmits(ier) then 2 else 1
  }

  /**
   The identification register says no interrupt (bit 0) exactly when the line should be low. Data ready, enabled
   by bit 0, is reported as 4 and comes before the empty transmitter, enabled by bit 1 and reported as 2.
   */
  lemma IdentificationExact(ier: nat, lsr: nat)
    ensures Identification(ier, lsr) % 2 == 1 <==> !Pending(ier, lsr)
    ensures Pending(ier, lsr) <==> ier % 2 == lsr % 2 == 1 || ier / 2 % 2 == 1
    ensures Identification(ier, lsr) == 4 <==> ier % 2 == lsr % 2 == 1
    ensures Identification(ier, lsr) == 2 <==> ier / 2 % 2 == 1 && !(ier % 2 == lsr % 2 == 1)
    ensures Identification(ier, lsr) == 1 <==> ier / 2 % 2 == 0 && !(ier % 2 == lsr % 2 == 1)
  {
  }

  class Uart {
    var irq: Irq?
    var ier: u8
    var iir: u8
    var fcr: u8
    var lcr: u8
    var mcr: u8
    var lsr: u8
    var msr: u8
    var scr: u8
    var rbr: u8
    var divisor: u16
    var output: seq<u8>
    ghost var received: seq<u8>   // bytes taken in
    ghost var consumed: seq<u8>   // bytes the guest read while data was ready

    ghost function Footprint(): set<object>
      reads this`irq
    {
      if irq == null then {this} else {this, irq}
    }

    predicate Ready()
      reads this`lsr
    {
      lsr % 2 == 1
    }

    function Held(): seq<u8>
      reads this`lsr, this`rbr
    {
      if Ready() then [rbr] else []
    }

    ghost predicate LineAgrees()
      reads this`irq, this`ier, this`lsr, irq
    {
      irq != null ==> irq.level == Pending(ier, lsr)
    }

    /** The line and the identification register say what the enable and status registers imply. */
    ghost predicate LineMatches()
      reads this`irq, this`ier, this`lsr, this`iir, irq
    {
      iir == Identification(ier, lsr) && LineAgrees()
    }

    /** What holds after any history: the line disagrees at most by being stuck high with interrupts disabled. */
    ghost predicate Consistent()
      reads this, irq
    {
      && lsr / 2 == IDLE / 2 && iir == Identification(ier, lsr)
      && (LineAgrees() || (irq.level && ier == 0))
    }

    /** What holds after any history without a refused reset. */
    ghost predicate Valid()
      reads this, irq
    {
      Consistent() && LineAgrees() && received == consumed + Held()
    }

    /** Whether an update of the line to the current registers goes through. */
    ghost predicate Settles(ier': nat, lsr': nat, sink: Option<Errno>)
      reads this`irq, irq
    {
      irq == null || irq.level == Pending(ier', lsr') || sink.None?
    }

    constructor ()
      ensures Valid() && irq == null && received == [] && consumed == [] && !Ready()
    {
      irq := null;
      ier, iir, fcr, lcr, mcr, lsr, msr, scr, rbr, divisor := 0, 1, 0, 0, 0, IDLE, 0, 0, 0, 0;
      output, received, consumed := [], [], [];
    }

    method UpdateIrq(sink: Option<Errno>) returns (r: Result<()>)
      modifies this`iir, Footprint() - {this}
      ensures r == if old(Settles(ier, lsr, sink)) then Ok(()) else Err(sink.value)
      ensures r.Ok? ==> LineMatches()
      ensures r.Err? ==> iir == old(iir) && irq.level == old(irq.level)
    {
      var pending := Receives(ier, lsr) || Transmits(ier);
      if irq == null {
        r := Ok(());
      } else {
        r := irq.Set(pending, sink);
      }
      if r.Ok? {
        iir := Identification(ier, lsr);
      }
    }

    /** A byte from the host: refused while one is held, undone when the interrupt line refuses. */
    method Receive(value: u8, sink: Option<Errno>) returns (r: Result<()>)
      requires Consistent()
      modifies this`rbr, this`lsr, this`iir, this`received, Footprint() - {this}
      ensures Consistent() && consumed == old(consumed) && (old(Valid()) ==> Valid())
      ensures r == if old(Ready()) then Err(EAGAIN) else if old(Settles(ier, IDLE + 1, sink)) then Ok(()) else Err(sink.value)
      ensures r.Ok? ==> Ready() && rbr == value && received == old(received) + [value] && LineAgrees()
      ensures r.Err? ==> received == old(received) && rbr == old(rbr) && lsr == old(lsr)
    {
      if lsr % 2 == 1 {
        return Err(EAGAIN);
      }
      var before := rbr;
      rbr := value;
      lsr := lsr + 1;
      r := UpdateIrq(sink);
      if r.Err? {
        lsr := lsr - 1;
        rbr := before;
      } else {
        received := received + [value];
      }
    }

    /**
     The guest reads the receive buffer (divisor latch closed). A refused update leaves data ready set whether or not
     it was: without data that makes a byte appear, exactly when the line disagreed with the registers before.
     */
    method ReadData(sink: Option<Errno>) returns (r: Result<u8>)
      requires Consistent() && lcr / DLAB == 0
      modifies this`lsr, this`iir, this`consumed, Footprint() - {this}
      ensures Consistent() && received == old(received) && (old(Valid()) ==> Valid())
      ensures r == if old(Settles(ier, IDLE, sink)) then Ok(rbr) else Err(sink.value)
      ensures r.Ok? ==> !Ready() && LineAgrees() && consumed == old(consumed) + old(Held())
      ensures r.Err? ==> Ready() && consumed == old(consumed)
      ensures !old(Ready()) ==> (Ready() <==> sink.Some? && !old(LineAgrees()))
    {
      var value := rbr;
      ghost var held := Held();
      if lsr % 2 == 1 {
        lsr := lsr - 1;
      }
      var u := UpdateIrq(sink);
      if u.Err? {
        lsr := lsr + 1;
        return Err(u.error);
      }
      consumed := consumed + held;
      r := Ok(value);
    }

    method Read(offset: nat, size: nat, sink: Option<Errno>) returns (r: Result<nat>)
      requires Consistent()
      modifies this`lsr, this`iir, this`consumed, Footprint() - {this}
      ensures Consistent() && received == old(received) && (old(Valid()) ==> Valid())
      ensures size != 1 || offset >= 8 ==> r == Err(EINVAL)
      ensures size == 1 ==>
                && (offset == 0 && lcr / DLAB != 0 ==> r == Ok(divisor % U8))
                && (offset == 0 && lcr / DLAB == 0 ==>
                      r == (if old(Settles(ier, IDLE, sink)) then Ok(rbr) else Err(sink.value)) && Ready() == r.Err?)
                && (offset == 1 ==> r == Ok(if lcr / DLAB != 0 then divisor / U8 else ier))
                && (offset == 3 ==> r == Ok(lcr)) && (offset == 4 ==> r == Ok(mcr))
                && (offset == 6 ==> r == Ok(msr)) && (offset == 7 ==> r == Ok(scr))
      ensures offset == 2 && size == 1 ==>
                r == Ok(if ier % 2 == 1 && lsr % 2 == 1 then 4 else if ier / 2 % 2 == 1 then 2 else 1)
      ensures offset == 5 && size == 1 ==> r == Ok(IDLE + if Ready() then 1 else 0)
      ensures consumed == old(consumed) + if size == 1 && offset == 0 && lcr / DLAB == 0 && r.Ok? then old(Held()) else []
      ensures !(size == 1 && offset == 0 && lcr / DLAB == 0) ==> lsr == old(lsr)
    {
      if size != 1 || offset >= 8 {
        return Err(EINVAL);
      }
      match offset
      case 0 =>
        if lcr / DLAB != 0 {
          r := Ok(divisor % U8);
        } else {
          var data := ReadData(sink);
          r := if data.Ok? then Ok(data.value) else Err(data.error);
        }
      case 1 => r := Ok(if lcr / DLAB != 0 then divisor / U8 else ier);
      case 2 => r := Ok(iir);
      case 3 => r := Ok(lcr);
      case 4 => r := Ok(mcr);
      case 5 => r := Ok(lsr);
      case 6 => r := Ok(msr);
      case _ => r := Ok(scr);
    }

    /** Interrupt enables, undone when the line refuses. */
    method WriteEnables(value: u8, sink: Option<Errno>) returns (r: Result<()>)
      requires Consistent()
      modifies this`ier, this`iir, Footprint() - {this}
      ensures Consistent() && (old(Valid()) ==> Valid())
      ensures r == if old(Settles(value % 16, lsr, sink)) then Ok(()) else Err(sink.value)
      ensures ier == if r.Ok? then value % 16 else old(ier)
      ensures r.Ok? ==> LineAgrees()
    {
      var before := ier;
      ier := value % 16;
      r := UpdateIrq(sink);
      if r.Err? {
        ier := before;
      }
    }

    method Write(offset: nat, size: nat, value: u8, sink: Option<Errno>) returns (r: Result<()>)
      requires Consistent()
      modifies this`ier, this`iir, this`fcr, this`lcr, this`mcr, this`scr, this`divisor, this`output, Footprint() - {this}
      ensures Consistent() && (old(Valid()) ==> Valid())
      ensures r == if size != 1 || offset >= 8 then Err(EINVAL)
                   else if offset != 1 || old(lcr) / DLAB != 0 || old(Settles(value % 16, lsr, sink)) then Ok(()) else Err(sink.value)
      ensures output == old(output) + if size == 1 && offset == 0 && old(lcr) / DLAB == 0 then [value] else []
      ensures ier == if size == 1 && offset == 1 && old(lcr) / DLAB == 0 && r.Ok? then value % 16 else old(ier)
      ensures scr == if size == 1 && offset == 7 then value else old(scr)
      ensures lcr == if size == 1 && offset == 3 then value else old(lcr)
      ensures mcr == if size == 1 && offset == 4 then value % 32 else old(mcr)
      ensures fcr == if size == 1 && offset == 2 then value / 64 * 64 + value / 8 % 2 * 8 + value % 2 else old(fcr)
      ensures divisor == if size != 1 || offset > 1 || old(lcr) / DLAB == 0 then old(divisor)
                         else if offset == 0 then old(divisor) / U8 * U8 + value
                         else old(divisor) % U8 + value * U8
    {
      if size != 1 || offset >= 8 {
        return Err(EINVAL);
      }
      r := Ok(());
      match offset
      case 0 =>
        if lcr / DLAB != 0 {
          divisor := divisor / U8 * U8 + value;
        } else {
          output := output + [value];
        }
      case 1 =>
        if lcr / DLAB != 0 {
          divisor := divisor % U8 + value * U8;
        } else {
          r := WriteEnables(value, sink);
        }
      case 2 => fcr := value / 64 * 64 + value / 8 % 2 * 8 + value % 2;
      case 3 => lcr := value;
      case 4 => mcr := value % 32;
      case 5 => return;
      case 6 => return;
      case _ => scr := value;
    }

    /** Connecting a line fails, and leaves none connected, when the line refuses the level it should have. */
    method Connect(line: Irq, sink: Option<Errno>) returns (r: Result<()>)
      requires Consistent()
      modifies this`irq, this`iir, line
      ensures Consistent() && LineAgrees() && (old(Valid()) ==> Valid())
      ensures r == if old(line.level) == Pending(ier, lsr) || sink.None? then Ok(()) else Err(sink.value)
      ensures irq == if r.Ok? then line else null
      ensures r.Err? ==> line.level == old(line.level)
    {
      irq := line;
      r := UpdateIrq(sink);
      if r.Err? {
        irq := null;
      }
    }

    /**
     Reset drops a held byte and ignores a refusal by the line. It leaves a valid device exactly when no line is
     connected, the line was low, or the sink lets it fall; otherwise the line is stuck high.
     */
    method Reset(sink: Option<Errno>)
      requires Consistent()
      modifies this, Footprint() - {this}
      ensures Consistent() && irq == old(irq) && output == old(output)
      ensures Valid() <==> irq == null || !old(irq.level) || sink.None?
      ensures LineAgrees() <==> irq == null || !old(irq.level) || sink.None?
      ensures ier == 0 && iir == 1 && lsr == IDLE && fcr == lcr == mcr == msr == scr == rbr == 0 && divisor == 0
      ensures received == consumed == old(consumed)
    {
      if irq != null {
        var _ := irq.Set(false, sink);
      }
      ClearRegisters();
      received := consumed;
    }

    method ClearRegisters()
      modifies this`ier, this`iir, this`fcr, this`lcr, this`mcr, this`lsr, this`msr, this`scr, this`rbr, this`divisor
      ensures ier == 0 && iir == 1 && lsr == IDLE && fcr == lcr == mcr == msr == scr == rbr == 0 && divisor == 0
      ensures iir == Identification(ier, lsr) && !Pending(ier, lsr)
    {
      ier, iir, fcr, lcr, mcr, lsr, msr, scr, rbr, divisor := 0, 1, 0, 0, 0, IDLE, 0, 0, 0, 0;
    }
  }

  /** A UART whose line was high when it refused a reset. */
  method StuckHigh() returns (uart: Uart)
    ensures fresh(uart.Footprint()) && uart.Consistent() && !uart.LineAgrees() && uart.lcr == 0
    ensures !uart.Ready() && uart.rbr == 0 && uart.received == [] && uart.consumed == []
  {
    var line := new Irq();
    uart := new Uart();
    var r := uart.Connect(line, None);
    r := uart.WriteEnables(2, None);
    assert uart.irq.level;
    uart.Reset(Some(EIO));
  }

  /**
   After a reset that the line refused, a read without data that it refuses again makes a byte appear: the guest sees
   data ready and reads a zero that no one sent.
   */
  method PhantomByte() returns (uart: Uart, status: Result<nat>, byte: Result<u8>)
    ensures uart.received == [] && uart.consumed == [0]
    ensures status == Ok(IDLE + 1) && byte == Ok(0)
  {
    uart := StuckHigh();
    byte := uart.ReadData(Some(EIO));
    status := uart.Read(5, 1, None);
    byte := uart.ReadData(None);
  }
}
