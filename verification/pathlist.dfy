/**
  The list of files to check: `push` puts a path at the head of a singly
  linked list, and `main` checks the files by walking the list from its head.
*/
module PathList {

  /** The `node` list: empty, or a path followed by the rest of the list. */
  datatype Node = Nil | Cons(s: string, next: Node)

  /** The paths of the list, from the head. */
  function Paths(head: Node): seq<string>
  {
    match head
    case Nil => []
    case Cons(s, next) => [s] + Paths(next)
  }

  /** `push`: the new path comes first and the old list follows it unchanged. */
  function Push(pathname: string, head: Node): (r: Node)
    ensures Paths(r) == [pathname] + Paths(head)
    ensures r.Cons? && r.next == head
  {
    Cons(pathname, head)
  }

  /** Pushing the paths one after the other, in the order they are discovered. */
  function PushAll(discovered: seq<string>, head: Node): Node
    decreases |discovered|
  {
    if |discovered| == 0 then head else PushAll(discovered[1..], Push(discovered[0], head))
  }

  function Reverse(xs: seq<string>): (r: seq<string>)
    ensures |r| == |xs|
  {
    if |xs| == 0 then [] else Reverse(xs[1..]) + [xs[0]]
  }

  /**
    Pushing paths in discovery order onto a list puts them in front of it in
    reverse order, so `main` checks files in reverse discovery order.
  */
  lemma {:induction false} PushAllReverses(discovered: seq<string>, head: Node)
    ensures Paths(PushAll(discovered, head)) == Reverse(discovered) + Paths(head)
    decreases |discovered|
  {
    if |discovered| > 0 {
      PushAllReverses(discovered[1..], Push(discovered[0], head));
      assert Reverse(discovered) == Reverse(discovered[1..]) + [discovered[0]];
    }
  }

  /** The order in which files found in the order `discovered` are checked. */
  lemma CheckOrder(discovered: seq<string>)
    ensures Paths(PushAll(discovered, Nil)) == Reverse(discovered)
    ensures forall i :: 0 <= i < |discovered| ==> Paths(PushAll(discovered, Nil))[i] == discovered[|discovered| - 1 - i]
  {
    PushAllReverses(discovered, Nil);
    ReverseIndex(discovered);
  }

  lemma {:induction false} ReverseIndex(xs: seq<string>)
    ensures forall i :: 0 <= i < |xs| ==> Reverse(xs)[i] == xs[|xs| - 1 - i]
    decreases |xs|
  {
    if |xs| > 0 {
      ReverseIndex(xs[1..]);
    }
  }
}
