/** A cell of the cursor's doubly linked chain. Links are slots of the arena
    the cursor keeps its cells in; `None` is a missing neighbour. */
module Nodes {
  import opened Results

  datatype Node<T> = Node(value: T, next: Option<nat>, previous: Option<nat>)

  /** A fresh cell holds its value and is not linked to anything yet. */
  function NewNode<T>(value: T): (n: Node<T>)
    ensures n.value == value
    ensures !HasNext(n) && !HasPrevious(n)
  {
    Node(value, None, None)
  }

  predicate HasNext<T>(n: Node<T>) {
    n.next.Some?
  }

  predicate HasPrevious<T>(n: Node<T>) {
    n.previous.Some?
  }

  function SetValue<T>(n: Node<T>, value: T): (r: Node<T>)
    ensures r.value == value
    ensures r.next == n.next && r.previous == n.previous
  {
    n.(value := value)
  }

  function SetNext<T>(n: Node<T>, next: Option<nat>): (r: Node<T>)
    ensures r.next == next
    ensures HasNext(r) <==> next.Some?
    ensures r.value == n.value && r.previous == n.previous
  {
    n.(next := next)
  }

  function SetPrevious<T>(n: Node<T>, previous: Option<nat>): (r: Node<T>)
    ensures r.previous == previous
    ensures HasPrevious(r) <==> previous.Some?
    ensures r.value == n.value && r.next == n.next
  {
    n.(previous := previous)
  }
}
