/**
 * The order the reader emits operations in is an order the management
 * model can execute them in: every operation's parent resource is created
 * by an earlier operation. Buffering a resource's nested operations in a
 * local list, appended after the resource's own operation, is what makes
 * this hold.
 */
module Ordering {
  import opened Wrappers
  import opened Stax
  import opened Dmr
  import opened Schema
  import opened Attributes
  import opened ReaderSpec
  import opened ReaderStructure

  /**
   * The resource an operation creates: its address, except for add-protocol,
   * which is addressed to the stack and creates protocol=type under it.
   */
  function Creates(op: Operation): Address
  {
    if op.name == AddProtocolOp then Child(op.address, ProtocolKey, Lookup(op.params, TypeAttr)) else op.address
  }

  /** The address an address was derived from; the empty address is the model's root. */
  function Parent(a: Address): Address
  {
    if a == [] then [] else a[..|a| - 1]
  }

  /**
   * Whether ops can run in order when the resources in known already exist:
   * each operation's parent exists, and then so does what it creates.
   */
  predicate Placed(known: set<Address>, ops: seq<Operation>)
    decreases |ops|
  {
    ops == [] || (Parent(Creates(ops[0])) in known && Placed(known + {Creates(ops[0])}, ops[1..]))
  }

  lemma ParentOfChild(parent: Address, key: string, value: Option<string>)
    ensures Parent(Child(parent, key, value)) == parent
  {
    assert Child(parent, key, value)[..|parent|] == parent;
  }

  /** More existing resources never make a runnable list unrunnable. */
  lemma {:induction false} PlacedMono(known: set<Address>, more: set<Address>, ops: seq<Operation>)
    requires known <= more && Placed(known, ops)
    ensures Placed(more, ops)
    decreases |ops|
  {
    if ops != [] {
      PlacedMono(known + {Creates(ops[0])}, more + {Creates(ops[0])}, ops[1..]);
    }
  }

  /** Two lists runnable from the same resources run one after the other. */
  lemma {:induction false} PlacedAppend(known: set<Address>, a: seq<Operation>, b: seq<Operation>)
    requires Placed(known, a) && Placed(known, b)
    ensures Placed(known, a + b)
    decreases |a|
  {
    if a == [] {
      assert a + b == b;
    } else {
      assert (a + b)[0] == a[0] && (a + b)[1..] == a[1..] + b;
      PlacedMono(known, known + {Creates(a[0])}, b);
      PlacedAppend(known + {Creates(a[0])}, a[1..], b);
    }
  }

  /**
   * A resource's own operation followed by nested operations that run once
   * it exists: runnable when its parent exists.
   */
  lemma PlacedOwnFirst(known: set<Address>, acc: seq<Operation>, own: Operation, nested: seq<Operation>)
    requires Placed(known, acc) && Parent(Creates(own)) in known
    requires Placed(known + {Creates(own)}, nested)
    ensures Placed(known, acc + [own] + nested)
  {
    assert ([own] + nested)[0] == own && ([own] + nested)[1..] == nested;
    PlacedAppend(known, acc, [own] + nested);
    assert acc + [own] + nested == acc + ([own] + nested);
  }

  /** Below the root, an element's operations run once its parent exists. */
  lemma {:induction false} ElementPlaced(host: Host, level: Level, parent: Address, e: Element,
                                         known: set<Address>, acc: seq<Operation>)
    requires level != Subsystem && parent in known && Placed(known, acc)
    ensures Placed(known, Parse(host, level, parent, e, acc).ops)
    decreases Rank(level), 1
  {
    var params := Read(host, level, map[], e.attributes);
    if params.Success? {
      var p := params.value;
      match level
      case Stack =>
        if NameAttr in p && e.children != [] && e.children[0].localName == TransportElement {
          var stack := StackAddress(parent, p[NameAttr]);
          ParentOfChild(parent, StackKey, Some(p[NameAttr]));
          ElementPlaced(host, Transport, stack, e.children[0], known + {stack}, []);
          var transport := Parse(host, Transport, stack, e.children[0], []);
          if transport.failure.None? {
            ChildrenPlaced(host, Protocol, stack, e.children, 1, known + {stack}, transport.ops);
            var nested := ParseChildren(host, Protocol, stack, e.children, 1, transport.ops);
            if nested.failure.None? {
              PlacedOwnFirst(known, acc, Operation(AddOp, stack, map[]), nested.ops);
            }
          }
        }
      case Transport =>
        if TypeAttr in p {
          var transport := TransportAddress(parent);
          ParentOfChild(parent, TransportKey, Some(TransportName));
          ChildrenPlaced(host, Property, transport, e.children, 0, known + {transport}, []);
          var nested := ParseChildren(host, Property, transport, e.children, 0, []);
          if nested.failure.None? {
            PlacedOwnFirst(known, acc, Operation(AddOp, transport, p), nested.ops);
          }
        }
      case Protocol =>
        if TypeAttr in p {
          var protocol := ProtocolAddress(parent, p[TypeAttr]);
          ParentOfChild(parent, ProtocolKey, Some(p[TypeAttr]));
          ChildrenPlaced(host, Property, protocol, e.children, 0, known + {protocol}, []);
          var nested := ParseChildren(host, Property, protocol, e.children, 0, []);
          if nested.failure.None? {
            PlacedOwnFirst(known, acc, Operation(AddProtocolOp, parent, p), nested.ops);
          }
        }
      case Property =>
        if e.children == [] && host.accepts(Property, ValueParam, e.text) {
          var op := Operation(AddOp, Child(parent, PropertyKey, Lookup(p, NameAttr)), map[ValueParam := e.text]);
          ParentOfChild(parent, PropertyKey, Lookup(p, NameAttr));
          PlacedOwnFirst(known, acc, op, []);
          assert acc + [op] + [] == acc + [op];
        }
    }
  }

  /** Below the root, a child loop's operations run once their parent exists. */
  lemma {:induction false} ChildrenPlaced(host: Host, level: Level, parent: Address, children: seq<Element>,
                                          from: nat, known: set<Address>, acc: seq<Operation>)
    requires level != Subsystem && parent in known && Placed(known, acc)
    ensures Placed(known, ParseChildren(host, level, parent, children, from, acc).ops)
    decreases Rank(level), 2, |children| - from
  {
    if from < |children| && Dispatched(level, children[from]) {
      ElementPlaced(host, level, parent, children[from], known, acc);
      var o := Parse(host, level, parent, children[from], acc);
      if o.failure.None? {
        ChildrenPlaced(host, level, parent, children, from + 1, known, o.ops);
      }
    }
  }

  /**
   * The whole read, successful or not: every operation in the list finds
   * its parent resource created by an operation before it, the subsystem's
   * own operation first.
   */
  lemma ReadPlaced(host: Host, e: Element)
    ensures Placed({[]}, SubsystemOutcome(host, e, []).ops)
  {
    var params := Read(host, Subsystem, map[], e.attributes);
    if params.Success? && DefaultStackAttr in params.value {
      var op := Operation(AddOp, SubsystemAddress(), params.value);
      var known := {[]} + {SubsystemAddress()};
      ChildrenAppend(host, Stack, SubsystemAddress(), e.children, 0, [op], []);
      assert [op] + [] == [op] && [] + [op] == [op];
      ChildrenPlaced(host, Stack, SubsystemAddress(), e.children, 0, known, []);
      PlacedOwnFirst({[]}, [], op, ParseChildren(host, Stack, SubsystemAddress(), e.children, 0, []).ops);
    }
  }
}
