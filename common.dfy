/** Identifiers, the string order that `Array.prototype.sort` uses, and the
    outbound events of the watch-together server. */
module Common {

  datatype Option<+T> = None | Some(value: T)

  /** A socket.io connection id, or an id a client names; any string. */
  type SocketId = string

  /** No element of `s` occurs twice. */
  predicate NoDup<T(==)>(s: seq<T>) {
    forall i, j :: 0 <= i < j < |s| ==> s[i] != s[j]
  }

  /** The default order of `Array.prototype.sort` on strings: lexicographic by
      character code, a proper prefix coming first. */
  predicate Precedes(a: string, b: string)
    decreases |a|
  {
    if a == [] then b != []
    else if b == [] then false
    else if a[0] != b[0] then a[0] < b[0]
    else Precedes(a[1..], b[1..])
  }

  /** Any two strings are ordered one way or the other, or are equal. */
  lemma {:induction false} PrecedesTotal(a: string, b: string)
    ensures Precedes(a, b) || a == b || Precedes(b, a)
  {
    if a != [] && b != [] && a[0] == b[0] {
      PrecedesTotal(a[1..], b[1..]);
      assert a == [a[0]] + a[1..] && b == [b[0]] + b[1..];
    }
  }

  /** No two strings precede each other. */
  lemma {:induction false} PrecedesAsymmetric(a: string, b: string)
    ensures !(Precedes(a, b) && Precedes(b, a))
  {
    if a != [] && b != [] && a[0] == b[0] {
      PrecedesAsymmetric(a[1..], b[1..]);
    }
  }

  /** Who an emitted event goes to: `io.emit` reaches every socket,
      `socket.emit` the calling socket, `socket.broadcast.emit` every socket
      but the caller, and `io.to(id).emit` the socket with that id. */
  datatype Audience = Everyone | Caller | OthersThanCaller | Peer(id: SocketId)

  /** An event the server emits, by name; payloads are not modelled. */
  datatype Event = Event(to: Audience, name: string)

  /** One event of the given name to each socket of `ids`, in order (a
      `forEach` over a room's member list). */
  function Notify(ids: seq<SocketId>, name: string): seq<Event> {
    seq(|ids|, i requires 0 <= i < |ids| => Event(Peer(ids[i]), name))
  }
}
