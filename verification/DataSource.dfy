/** A store of messages that wait to be sent: the interface every message producer implements
  * (components/include/memfault/core/data_packetizer_source.h), backed by a plain list. */
module DataSource {
  import opened Bytes

  class Source {
    /** The stored messages, the one to be sent next first. None is empty. */
    var queue: seq<seq<byte>>

    constructor ()
      ensures queue == []
    {
      queue := [];
    }

    method HasMoreMsgs() returns (has: bool, size: nat)
      ensures has == (queue != [])
      ensures size == if has then |queue[0]| else 0
    {
      has := |queue| > 0;
      size := if has then |queue[0]| else 0;
    }

    /** Copies `len` bytes of the next message, from `offset` on, to `buf` at index `at`. */
    method ReadMsg(offset: nat, buf: array<byte>, at: nat, len: nat) returns (ok: bool)
      requires at + len <= buf.Length
      modifies buf
      ensures ok == (queue != [] && offset + len <= |queue[0]|)
      ensures buf[..] == if ok then Splice(old(buf[..]), at, queue[0][offset..offset + len]) else old(buf[..])
    {
      if |queue| == 0 || offset + len > |queue[0]| {
        return false;
      }
      CopyInto(buf, at, queue[0][offset..offset + len]);
      return true;
    }

    method Store(stored: seq<byte>)
      modifies this
      ensures queue == old(queue) + [stored]
    {
      queue := queue + [stored];
    }

    /** Deletes the next message. */
    method MarkMsgRead()
      modifies this
      ensures queue == if old(queue) == [] then [] else old(queue)[1..]
    {
      if |queue| > 0 {
        queue := queue[1..];
      }
    }
  }
}
