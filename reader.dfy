/**
 * JGroupsSubsystemXMLReader_1_1: the parse methods. Each appends to the list
 * it is given. The operations nested inside a stack, transport or protocol
 * are first collected in a local list and appended after the element's own
 * operation, once the element is complete.
 */
module Reader {
  import opened Wrappers
  import opened Stax
  import opened Dmr
  import opened Schema
  import opened Attributes
  import opened ReaderSpec

  /** readElement: reads the subsystem element and everything inside it. */
  method ReadElement(host: Host, e: Element, ops: OperationList) returns (err: Option<Error>)
    modifies ops
    ensures ops.items == SubsystemOutcome(host, e, old(ops.items)).ops
    ensures err == SubsystemOutcome(host, e, old(ops.items)).failure
  {
    var subsystemAddress := SubsystemAddress();
    var r := ReadAttributes(host, Subsystem, e.attributes);
    if r.Failure? {
      return Some(r.error);
    }
    if DefaultStackAttr !in r.value {
      return Some(MissingRequired({DefaultStackAttr}));
    }
    var subsystem := Operation(AddOp, subsystemAddress, r.value);
    ops.Add(subsystem);
    err := ParseStacks(host, subsystemAddress, e.children, ops);
  }

  /**
   * The child loop of readElement: parses each stack straight into the
   * caller's list, so the stacks completed before a failure stay there.
   */
  method ParseStacks(host: Host, subsystem: Address, children: seq<Element>, ops: OperationList)
    returns (err: Option<Error>)
    modifies ops
    ensures ops.items == ParseChildren(host, Stack, subsystem, children, 0, old(ops.items)).ops
    ensures err == ParseChildren(host, Stack, subsystem, children, 0, old(ops.items)).failure
  {
    var i := 0;
    while i < |children|
      invariant 0 <= i <= |children|
      invariant ParseChildren(host, Stack, subsystem, children, 0, old(ops.items))
                == ParseChildren(host, Stack, subsystem, children, i, ops.items)
    {
      var child := children[i];
      if child.namespace != Namespace11 {
        return Some(UnexpectedElement(child.localName));
      }
      if child.localName != StackElement {
        return Some(UnexpectedElement(child.localName));
      }
      err := ParseStack(host, subsystem, child, ops);
      if err.Some? {
        return;
      }
      i := i + 1;
    }
    return None;
  }

  /** parseStack: the stack's operation, then its transport's and protocols' operations. */
  method ParseStack(host: Host, subsystem: Address, e: Element, ops: OperationList) returns (err: Option<Error>)
    modifies ops
    ensures ops.items == Parse(host, Stack, subsystem, e, old(ops.items)).ops
    ensures err == Parse(host, Stack, subsystem, e, old(ops.items)).failure
  {
    var r := ReadAttributes(host, Stack, e.attributes);
    if r.Failure? {
      return Some(r.error);
    }
    if NameAttr !in r.value {
      return Some(MissingRequired({NameAttr}));
    }
    var stackAddress := StackAddress(subsystem, r.value[NameAttr]);
    if e.children == [] || e.children[0].localName != TransportElement {
      return Some(MissingRequiredElement({TransportElement}));
    }
    var additional := new OperationList();
    err := ParseTransport(host, stackAddress, e.children[0], additional);
    if err.Some? {
      return;
    }
    err := ParseProtocols(host, stackAddress, e.children, 1, additional);
    if err.Some? {
      return;
    }
    ops.Add(Operation(AddOp, stackAddress, map[]));
    ops.AddAll(additional);
    return None;
  }

  /**
   * The child loop of parseStack after the transport: appends each
   * protocol's operations to the stack's local list.
   */
  method ParseProtocols(host: Host, stack: Address, children: seq<Element>, from: nat, ops: OperationList)
    returns (err: Option<Error>)
    requires from <= |children|
    modifies ops
    ensures ops.items == ParseChildren(host, Protocol, stack, children, from, old(ops.items)).ops
    ensures err == ParseChildren(host, Protocol, stack, children, from, old(ops.items)).failure
  {
    var i := from;
    while i < |children|
      invariant from <= i <= |children|
      invariant ParseChildren(host, Protocol, stack, children, from, old(ops.items))
                == ParseChildren(host, Protocol, stack, children, i, ops.items)
    {
      var child := children[i];
      if child.localName != ProtocolElement {
        return Some(UnexpectedElement(child.localName));
      }
      err := ParseProtocol(host, stack, child, ops);
      if err.Some? {
        return;
      }
      i := i + 1;
    }
    return None;
  }

  /** parseTransport: the transport's operation, then its properties' operations. */
  method ParseTransport(host: Host, stack: Address, e: Element, ops: OperationList) returns (err: Option<Error>)
    modifies ops
    ensures ops.items == Parse(host, Transport, stack, e, old(ops.items)).ops
    ensures err == Parse(host, Transport, stack, e, old(ops.items)).failure
  {
    var transportAddress := TransportAddress(stack);
    var r := ReadAttributes(host, Transport, e.attributes);
    if r.Failure? {
      return Some(r.error);
    }
    if TypeAttr !in r.value {
      return Some(MissingRequired({TypeAttr}));
    }
    var properties := new OperationList();
    err := ParseProperties(host, transportAddress, e.children, properties);
    if err.Some? {
      return;
    }
    ops.Add(Operation(AddOp, transportAddress, r.value));
    ops.AddAll(properties);
    return None;
  }

  /** parseProtocol: an add-protocol operation on the stack, then its properties' operations. */
  method ParseProtocol(host: Host, stack: Address, e: Element, ops: OperationList) returns (err: Option<Error>)
    modifies ops
    ensures ops.items == Parse(host, Protocol, stack, e, old(ops.items)).ops
    ensures err == Parse(host, Protocol, stack, e, old(ops.items)).failure
  {
    var r := ReadAttributes(host, Protocol, e.attributes);
    if r.Failure? {
      return Some(r.error);
    }
    if TypeAttr !in r.value {
      return Some(MissingRequired({TypeAttr}));
    }
    var protocolAddress := ProtocolAddress(stack, r.value[TypeAttr]);
    var properties := new OperationList();
    err := ParseProperties(host, protocolAddress, e.children, properties);
    if err.Some? {
      return;
    }
    ops.Add(Operation(AddProtocolOp, stack, r.value));
    ops.AddAll(properties);
    return None;
  }

  /**
   * The child loop of parseTransport and parseProtocol: appends each
   * property's operation to the list it is given.
   */
  method ParseProperties(host: Host, owner: Address, children: seq<Element>, ops: OperationList)
    returns (err: Option<Error>)
    modifies ops
    ensures ops.items == ParseChildren(host, Property, owner, children, 0, old(ops.items)).ops
    ensures err == ParseChildren(host, Property, owner, children, 0, old(ops.items)).failure
  {
    var i := 0;
    while i < |children|
      invariant 0 <= i <= |children|
      invariant ParseChildren(host, Property, owner, children, 0, old(ops.items))
                == ParseChildren(host, Property, owner, children, i, ops.items)
    {
      var child := children[i];
      if child.localName != PropertyElement {
        return Some(UnexpectedElement(child.localName));
      }
      err := ParseProperty(host, owner, child, ops);
      if err.Some? {
        return;
      }
      i := i + 1;
    }
    return None;
  }

  /** parseProperty: one add operation for the property, carrying its text as the value. */
  method ParseProperty(host: Host, owner: Address, e: Element, ops: OperationList) returns (err: Option<Error>)
    modifies ops
    ensures ops.items == Parse(host, Property, owner, e, old(ops.items)).ops
    ensures err == Parse(host, Property, owner, e, old(ops.items)).failure
  {
    var r := ReadAttributes(host, Property, e.attributes);
    if r.Failure? {
      return Some(r.error);
    }
    var propertyName := Lookup(r.value, NameAttr);
    // parseProperty's name guard at this point tests the operation node, which is
    // never null, so an absent name is not reported.
    if e.children != [] {
      return Some(TextOnlyExpected(e.localName));
    }
    var propertyValue := e.text;
    var propertyAddress := Child(owner, PropertyKey, propertyName);
    if !host.accepts(Property, ValueParam, propertyValue) {
      return Some(InvalidAttributeValue(ValueParam, propertyValue));
    }
    ops.Add(Operation(AddOp, propertyAddress, map[ValueParam := propertyValue]));
    return None;
  }
}
