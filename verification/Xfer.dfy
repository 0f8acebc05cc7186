// The sending loop and the device layer below it as the firmware keeps them: static variables
// updated call by call, and a read buffer shared by the layers.
module Xfer {
  import opened Wrappers
  import opened MemqSpec
  import opened XferSpec
  import Q = Memq

  class DeviceLayer {
    const memq: Q.Memq
    var pldPtr: bool
    var pldBuf: Packet
    // the payload last written to the radio
    var air: Packet

    ghost function St(): Device
      reads this
    {
      Device(pldPtr, pldBuf, air)
    }

    constructor (memq: Q.Memq)
      ensures this.memq == memq && St() == Device(false, [], [])
    {
      this.memq := memq;
      pldPtr := false;
      pldBuf := [];
      air := [];
    }

    // The result says whether there is a packet in the read buffer to send.
    method DeviceMemRead(now: nat) returns (found: bool)
      requires memq.Usable() && memq.cfg.packetLen >= 8
      modifies this, memq, memq.flash.cells
      ensures memq.Usable() && (old(memq.Valid()) ==> memq.Valid())
      ensures (memq.St(), St()) == XferSpec.DeviceMemRead(memq.cfg, old(memq.St()), old(St()), now)
      ensures found == pldPtr
      ensures old(pldPtr) ==> found && St() == old(St()) && memq.St() == old(memq.St())
    {
      if !pldPtr {
        var pkt := memq.MemqRead();
        if pkt.Some? {
          Check(pkt.value, now);
        }
        return pldPtr;
      }
      return pldPtr;
    }

    // A packet that was just read: it stays in hand if it is not from the future and of a known type.
    method Check(pkt: Packet, now: nat)
      requires |pkt| >= 8 && !pldPtr
      modifies this`pldPtr, this`pldBuf
      ensures St() == TakeIn(old(St()), Some(pkt), now)
    {
      pldBuf := pkt;
      pldPtr := true;
      if Word(pldBuf) > now {
        pldPtr := false;
        return;
      }
      if pldBuf[0] != 11 && pldBuf[0] != 23 {
        pldPtr := false;
      }
    }

    method DeviceRfSend()
      modifies this`air
      ensures St() == XferSpec.DeviceRfSend(old(St()))
    {
      air := pldBuf;
    }

    method DeviceRfAckWait(res: bool) returns (code: int)
      modifies this`pldPtr
      ensures (St(), code) == XferSpec.DeviceRfAckWait(old(St()), res)
      ensures code == (if res then 200 else -1) && pldPtr == (old(pldPtr) && !res)
    {
      if res {
        pldPtr := false;
        return 200;
      }
      return -1;
    }
  }

  class SendLoop {
    const dev: DeviceLayer
    var isReady: bool
    var maxTryCount: nat
    var sendState: SendState
    var ptr: bool
    var ackCode: int
    var tryCount: nat

    ghost function St(): XferSpec.Xfer
      reads this
    {
      XferSpec.Xfer(isReady, sendState, ptr, tryCount, maxTryCount)
    }

    ghost predicate Usable()
      reads this, dev.memq, dev.memq.flash.cells
    {
      dev.memq.Usable() && dev.memq.cfg.packetLen >= 8
    }

    ghost function NodeSt(): Node
      reads this, dev, dev.memq, dev.memq.flash.cells
    {
      Node(dev.memq.St(), dev.St(), St())
    }

    constructor (dev: DeviceLayer)
      ensures this.dev == dev && St() == Start(dev.memq.St(), 1).xfer
      ensures !isReady && sendState == ReadMem && !ptr && tryCount == 0 && maxTryCount == 1
    {
      this.dev := dev;
      isReady := false;
      maxTryCount := 1;
      sendState := ReadMem;
      ptr := false;
      ackCode := 0;
      tryCount := 0;
    }

    method XferConfig(mxTry: nat)
      requires mxTry < 256
      modifies this`maxTryCount
      ensures St() == old(St()).(maxTry := mxTry)
    {
      maxTryCount := mxTry;
    }

    method XferReady()
      modifies this`isReady, this`sendState
      ensures St() == XferSpec.XferReady(old(St()))
      ensures isReady && sendState == ReadMem
    {
      isReady := true;
      sendState := ReadMem;
    }

    // ack is what the radio would report if it is asked, now what the clock shows.
    method XferSendLoop(ack: bool, now: nat) returns (goesOn: bool)
      requires Usable()
      modifies this, dev, dev.memq, dev.memq.flash.cells
      ensures Usable() && (old(dev.memq.Valid()) ==> dev.memq.Valid())
      ensures NodeSt() == XferSpec.XferSendLoop(dev.memq.cfg, old(NodeSt()), ack, now)
      ensures goesOn == (ptr || isReady)
      ensures old(isReady) && old(sendState) == SendSuccess ==> goesOn && isReady && sendState == ReadMem
    {
      if isReady {
        match sendState {
          case ReadMem =>
            ptr := dev.DeviceMemRead(now);
            if ptr {
              sendState := ServerSend;
              tryCount := 0;
            } else {
              isReady := false;
            }
          case ServerSend =>
            dev.DeviceRfSend();
            tryCount := (tryCount + 1) % 256;
            sendState := WaitAck;
          case WaitAck =>
            ackCode := dev.DeviceRfAckWait(ack);
            sendState := if ackCode == 200 then SendSuccess else Failed;
          case SendSuccess =>
            isReady := true;
            sendState := ReadMem;
            return isReady;
          case Failed =>
            if tryCount < maxTryCount {
              sendState := ServerSend;
            } else {
              isReady := false;
            }
          case ToJson =>
            sendState := ReadMem;
        }
      }
      return ptr || isReady;
    }
  }
}
