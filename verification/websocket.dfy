/**
 One established connection, `Websocket`: the socket it wraps and its
 single `message` handler slot.
 */
module Websocket {
  import opened Php
  import Frames

  /** A socket handle; two handles are the same socket iff they are equal. */
  type Socket = nat

  /** A PHP callable registered as an event handler, identified but never run. */
  datatype Handler = Handler(id: nat)

  datatype Connection = Connection(socket: Socket, onMessage: Option<Handler>)

  /** Bytes handed to `socket_write` on a given socket. */
  datatype Write = Write(socket: Socket, bytes: Frames.Bytes)

  /** `new WebSocket($socket)`: wraps the socket, no message handler yet. */
  function New(socket: Socket): (c: Connection)
    ensures c.socket == socket && c.onMessage.None?
  {
    Connection(socket, None)
  }

  /**
   `on($event, $callable)`: the event "message" fills the single slot,
   replacing any earlier handler; every other event name is ignored.
   */
  function On(c: Connection, event: string, f: Handler): (r: Connection)
    ensures r.socket == c.socket
    ensures event == "message" ==> r.onMessage == Some(f)
    ensures event != "message" ==> r == c
  {
    if event == "message" then c.(onMessage := Some(f)) else c
  }

  /** Registering twice for "message" leaves only the second handler. */
  lemma OnLastWins(c: Connection, f: Handler, g: Handler)
    ensures On(On(c, "message", f), "message", g) == On(c, "message", g)
  {
  }

  /** `send($out)`: one write of the frame bytes on the connection's own socket. */
  function Send(c: Connection, out: Frames.Bytes): (w: Write)
    ensures w.socket == c.socket
    ensures |w.bytes| == |out| + 2 && w.bytes[0] == Frames.FinText && w.bytes[2..] == out
    ensures w.bytes[1] as nat == |out| % 256
    ensures |out| <= 125 ==> Frames.Parse(w.bytes) == Some(Frames.Frame(true, 1, None, out))
  {
    if |out| <= 125 then
      Frames.SendShortIsFrame(out);
      Write(c.socket, Frames.SendBytes(out))
    else
      Write(c.socket, Frames.SendBytes(out))
  }
}
