/** The node objects the linked lists, stacks and queues are made of. */
module Nodes {

  /** A singly linked node: a value and the link to the next node. */
  class SNode<T> {
    var value: T
    var next: SNode?<T>

    constructor (value: T, next: SNode?<T>)
      ensures this.value == value && this.next == next
    {
      this.value := value;
      this.next := next;
    }
  }

  /** A doubly linked node: a value and links to the previous and next nodes. */
  class DNode<T> {
    var value: T
    var prev: DNode?<T>
    var next: DNode?<T>

    constructor (value: T, prev: DNode?<T>, next: DNode?<T>)
      ensures this.value == value && this.prev == prev && this.next == next
    {
      this.value := value;
      this.prev := prev;
      this.next := next;
    }
  }
}
