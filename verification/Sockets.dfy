/** The writing half of a socket. */
module Sockets {
  import opened Bytes

  /** What went out, write by write, and for each write to come how many bytes it takes before it
      fails; the writes after those succeed. Those numbers are anything at all, and nobody looks at
      them before a write. */
  datatype Outlet = Outlet(written: seq<Octets>, room: seq<nat>) {
    predicate Takes(bytes: Octets) { room == [] || |bytes| <= room[0] }

    /** All of it goes out, or only a part before the write fails. */
    function Write(bytes: Octets): Outlet {
      Outlet(written + [if Takes(bytes) then bytes else bytes[..room[0]]], if room == [] then [] else room[1..])
    }
  }
}
