/**
 * Messages in flight and the intrusive doubly linked lists that hold them
 * (struct mosquitto_message_all, utlist.h).
 */
module Inflight {
  import opened Mqtt
  import opened Properties

  /** enum mosquitto_msg_state. */
  datatype MsgState =
    | Invalid
    | PublishQos0
    | PublishQos1
    | WaitForPuback
    | PublishQos2
    | WaitForPubrec
    | ResendPubrel
    | WaitForPubrel
    | ResendPubcomp
    | WaitForPubcomp
    | SendPubrec
    | Queued

  /** What the application publishes or receives. */
  datatype Content = Content(topic: Option<seq<byte>>, payload: seq<byte>, retain: bool, properties: seq<Property>)

  /** One message. `serial` is not in the source: it numbers the messages of a
      history, so that two messages with the same packet identifier can be told
      apart. */
  datatype Message = Message(serial: nat, mid: uint16, qos: nat, state: MsgState, dup: bool, content: Content)

  class Node {
    var prev: Node?
    var next: Node?
    var msg: Message

    constructor (msg: Message)
      ensures this.msg == msg
    {
      this.msg := msg;
      prev, next := null, null;
    }
  }

  ghost function Messages(ns: seq<Node>): (l: seq<Message>)
    reads ns
    ensures |l| == |ns|
  {
    seq(|ns|, i requires 0 <= i < |ns| reads ns => ns[i].msg)
  }

  /** A utlist list head with its element count. */
  class MessageList {
    var head: Node?
    var queueLen: int
    ghost var nodes: seq<Node>

    /** The shape that the macros rely on: `next` ends in NULL, `prev` is
        circular. */
    ghost predicate Valid()
      reads this`head, this`nodes, nodes
    {
      Linked(nodes)
    }

    ghost predicate Linked(ns: seq<Node>)
      reads this`head, ns
    {
      && (forall i, j | 0 <= i < j < |ns| :: ns[i] != ns[j])
      && (head == null <==> ns == [])
      && (ns != [] ==> head == ns[0] && ns[0].prev == ns[|ns| - 1])
      && (forall i {:trigger ns[i].next} | 0 <= i < |ns| :: ns[i].next == if i + 1 < |ns| then ns[i + 1] else null)
      && (forall i {:trigger ns[i].prev} | 1 <= i < |ns| :: ns[i].prev == ns[i - 1])
    }

    /** The node at an index, or NULL behind the last one. */
    ghost function NodeAt(i: nat): Node?
      requires i <= |nodes|
      reads this`nodes
    {
      if i < |nodes| then nodes[i] else null
    }

    ghost function Contents(): (l: seq<Message>)
      reads this`nodes, nodes
      ensures |l| == |nodes|
    {
      Messages(nodes)
    }

    lemma Start()
      requires Valid()
      ensures head == NodeAt(0)
    {
    }

    /** A node's message, and where its link leads. */
    lemma At(k: nat)
      requires Valid() && k < |nodes|
      ensures nodes[k].msg == Contents()[k] && nodes[k].next == NodeAt(k + 1)
    {
    }

    constructor ()
      ensures Valid() && Contents() == [] && nodes == [] && queueLen == 0
    {
      head, queueLen := null, 0;
      nodes := [];
    }

    /** DL_APPEND. */
    method Append(add: Node)
      requires Valid() && add !in nodes
      modifies this`head, this`nodes, nodes, add
      ensures Valid()
      ensures nodes == old(nodes) + [add]
      ensures forall n | n in nodes :: n.msg == old(n.msg)
      ensures Contents() == old(Contents()) + [old(add.msg)]
    {
      if head != null {
        add.prev := head.prev;
        head.prev.next := add;
        head.prev := add;
        add.next := null;
      } else {
        head := add;
        head.prev := head;
        head.next := null;
      }
      nodes := nodes + [add];
    }

    /** DL_DELETE. */
    method Delete(del: Node, ghost k: nat)
      requires Valid() && k < |nodes| && nodes[k] == del
      modifies this`head, this`nodes, nodes
      ensures Valid()
      ensures nodes == old(nodes)[..k] + old(nodes)[k + 1..]
      ensures forall n | n in old(nodes) :: n.msg == old(n.msg)
      ensures del.next == old(del.next)
      ensures Contents() == old(Contents())[..k] + old(Contents())[k + 1..]
    {
      ghost var ns, l := nodes, Contents();
      Unlink(del, k);
      nodes := ns[..k] + ns[k + 1..];
      Removed(ns, k, l);
    }

    /** The pointers that the macro sets. */
    method Unlink(del: Node, ghost k: nat)
      requires Valid() && k < |nodes| && nodes[k] == del
      modifies this`head, nodes
      ensures Linked(nodes[..k] + nodes[k + 1..])
      ensures forall n | n in nodes :: n.msg == old(n.msg)
      ensures del.next == old(del.next)
    {
      if del.prev == del {
        assert k == 0 && |nodes| == 1 by { PrevIsSelf(k); }
        head := null;
      } else if del == head {
        del.next.prev := del.prev;
        head := del.next;
      } else {
        del.prev.next := del.next;
        if del.next != null {
          del.next.prev := del.prev;
        } else {
          head.prev := del.prev;
        }
      }
    }

    lemma Removed(ns: seq<Node>, k: nat, l: seq<Message>)
      requires k < |ns| == |l| && forall i | 0 <= i < |ns| :: ns[i].msg == l[i]
      ensures Messages(ns[..k] + ns[k + 1..]) == l[..k] + l[k + 1..]
    {
    }

    lemma PrevIsSelf(k: nat)
      requires Valid() && k < |nodes| && nodes[k].prev == nodes[k]
      ensures k == 0 && |nodes| == 1
    {
    }

    /** Changing a field of the message in place. */
    method Update(cur: Node, ghost k: nat, msg: Message)
      requires Valid() && k < |nodes| && nodes[k] == cur
      modifies cur`msg
      ensures Valid() && cur.msg == msg
      ensures Contents() == old(Contents())[k := msg]
    {
      cur.msg := msg;
    }
  }
}
