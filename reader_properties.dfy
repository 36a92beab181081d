/**
 * What each parse method of the JGroups 1.1 reader promises about the
 * element it reads: the operation it appends, where that operation is
 * addressed, which attributes and child elements it accepts, and which
 * failure ends it otherwise.
 */
module ReaderProperties {
  import opened Wrappers
  import opened Stax
  import opened Dmr
  import opened Schema
  import opened Attributes
  import opened ReaderSpec
  import opened ReaderStructure

  /** Whether every attribute of attrs has the given local name. */
  predicate AllNamed(attrs: seq<Attribute>, name: string)
  {
    forall i :: 0 <= i < |attrs| ==> attrs[i].localName == name
  }

  /** The operation parseProperty appends for element e under owner. */
  function PropertyOperation(owner: Address, e: Element): Operation
  {
    Operation(AddOp, Child(owner, PropertyKey, LastValue(e.attributes, NameAttr)), map[ValueParam := e.text])
  }

  // ---------------------------------------------------------------- property

  /**
   * A property element is read exactly when its only attributes are name
   * attributes, it has no child elements and its text is an accepted value;
   * it then appends one add operation addressed under its owner with
   * property=(last name, or no name at all) and the text as its value.
   */
  lemma PropertyRead(host: Host, owner: Address, e: Element, acc: seq<Operation>)
    ensures Parse(host, Property, owner, e, acc).failure.None?
            <==> AllNamed(e.attributes, NameAttr) && e.children == [] && host.accepts(Property, ValueParam, e.text)
    ensures Parse(host, Property, owner, e, acc).failure.None?
            ==> Parse(host, Property, owner, e, acc).ops == acc + [PropertyOperation(owner, e)]
  {
    ReadSucceeds(host, Property, map[], e.attributes);
    var r := Read(host, Property, map[], e.attributes);
    if r.Success? {
      ReadLastWins(host, Property, map[], e.attributes);
      assert Lookup(r.value, NameAttr) == LastValue(e.attributes, NameAttr);
    }
  }

  /**
   * The name check of parseProperty never fires: a property without a name
   * attribute is read like any other, into a property segment with no name.
   */
  lemma PropertyWithoutName(host: Host, owner: Address, e: Element, acc: seq<Operation>)
    requires e.attributes == [] && e.children == [] && host.accepts(Property, ValueParam, e.text)
    ensures Parse(host, Property, owner, e, acc)
            == Outcome(acc + [Operation(AddOp, owner + [Segment(PropertyKey, None)], map[ValueParam := e.text])], None)
  {
  }

  /**
   * How a property element fails: an attribute other than name is
   * unexpected; with valid attributes, child elements mean the element has
   * no text, and text the value definition refuses is an invalid value.
   * The list is left as it was.
   */
  lemma PropertyFailures(host: Host, owner: Address, e: Element, acc: seq<Operation>, i: nat)
    ensures i < |e.attributes| && AllNamed(e.attributes[..i], NameAttr) && e.attributes[i].localName != NameAttr
            ==> Parse(host, Property, owner, e, acc) == Stop(acc, UnexpectedAttribute(e.attributes[i].localName))
    ensures AllNamed(e.attributes, NameAttr) && e.children != []
            ==> Parse(host, Property, owner, e, acc) == Stop(acc, TextOnlyExpected(e.localName))
    ensures AllNamed(e.attributes, NameAttr) && e.children == [] && !host.accepts(Property, ValueParam, e.text)
            ==> Parse(host, Property, owner, e, acc) == Stop(acc, InvalidAttributeValue(ValueParam, e.text))
  {
    ReadSucceeds(host, Property, map[], e.attributes);
    if i < |e.attributes| && AllNamed(e.attributes[..i], NameAttr) && e.attributes[i].localName != NameAttr {
      assert forall j :: 0 <= j < i ==> e.attributes[..i][j] == e.attributes[j];
      ReadFirstRejection(host, Property, map[], e.attributes, i);
    }
  }

  /**
   * The property loop of a transport or protocol appends one operation per
   * property child, in document order, each addressed under the owner.
   */
  lemma {:induction false} PropertiesInOrder(host: Host, owner: Address, children: seq<Element>, from: nat,
                                             acc: seq<Operation>)
    requires from <= |children|
    requires ParseChildren(host, Property, owner, children, from, acc).failure.None?
    ensures |ParseChildren(host, Property, owner, children, from, acc).ops| == |acc| + |children| - from
    ensures ParseChildren(host, Property, owner, children, from, acc).ops[..|acc|] == acc
    ensures forall k :: from <= k < |children|
              ==> ParseChildren(host, Property, owner, children, from, acc).ops[|acc| + k - from]
                  == PropertyOperation(owner, children[k])
    decreases |children| - from
  {
    if from < |children| {
      PropertyRead(host, owner, children[from], acc);
      var next := acc + [PropertyOperation(owner, children[from])];
      PropertiesInOrder(host, owner, children, from + 1, next);
      var ops := ParseChildren(host, Property, owner, children, from + 1, next).ops;
      assert ops[..|acc|] == next[..|acc|] == acc;
      assert ops[|acc|] == next[|acc|];
    } else {
      assert acc[..|acc|] == acc;
    }
  }

  // ------------------------------------------------------ transport, protocol

  /** The class check a transport or protocol type goes through. */
  predicate IsClass(host: Host, level: Level, value: string)
  {
    if level == Transport then host.isTransportClass(value) else host.isProtocolClass(value)
  }

  /**
   * After its attributes, a transport or protocol element has every
   * attribute recognized and validated, and a type whose class loads.
   */
  lemma TypedAttributes(host: Host, level: Level, attrs: seq<Attribute>)
    requires level == Transport || level == Protocol
    requires Read(host, level, map[], attrs).Success? && TypeAttr in Read(host, level, map[], attrs).value
    ensures Read(host, level, map[], attrs).value == LastValues(attrs)
    ensures forall i :: 0 <= i < |attrs| ==> attrs[i].localName in Recognized(level)
    ensures IsClass(host, level, LastValues(attrs)[TypeAttr])
  {
    ReadSucceeds(host, level, map[], attrs);
    ReadIsLastValues(host, level, attrs);
    ReadLastWins(host, level, map[], attrs);
    var i := LastValueIndex(attrs, TypeAttr);
    assert Accepted(host, level, attrs[i]);
  }

  /**
   * A transport that is read appends its add operation, addressed to the
   * stack followed by transport=TRANSPORT and carrying the last value of
   * each attribute, with a type whose class loads; then one operation per
   * property child, in document order, addressed under the transport.
   */
  lemma TransportRead(host: Host, stack: Address, e: Element, acc: seq<Operation>)
    requires Parse(host, Transport, stack, e, acc).failure.None?
    ensures var ops := Parse(host, Transport, stack, e, acc).ops;
            && |ops| == |acc| + 1 + |e.children|
            && ops[..|acc|] == acc
            && ops[|acc|] == Operation(AddOp, stack + [Segment(TransportKey, Some(TransportName))], LastValues(e.attributes))
            && (forall k :: 0 <= k < |e.children|
                  ==> ops[|acc| + 1 + k] == PropertyOperation(TransportAddress(stack), e.children[k]))
    ensures forall i :: 0 <= i < |e.attributes| ==> e.attributes[i].localName in Recognized(Transport)
    ensures TypeAttr in LastValues(e.attributes) && host.isTransportClass(LastValues(e.attributes)[TypeAttr])
  {
    TypedAttributes(host, Transport, e.attributes);
    var transport := TransportAddress(stack);
    var nested := ParseChildren(host, Property, transport, e.children, 0, []);
    PropertiesInOrder(host, transport, e.children, 0, []);
    var own := Operation(AddOp, transport, LastValues(e.attributes));
    var ops := acc + [own] + nested.ops;
    assert ops[..|acc|] == acc;
    forall k | 0 <= k < |e.children|
      ensures ops[|acc| + 1 + k] == PropertyOperation(transport, e.children[k])
    {
      assert ops[|acc| + 1 + k] == nested.ops[k];
    }
  }

  /**
   * A protocol that is read appends an add-protocol operation addressed to
   * the stack itself, carrying the last value of each attribute, with a
   * type whose class loads; then one operation per property child, in
   * document order, addressed under protocol=type.
   */
  lemma ProtocolRead(host: Host, stack: Address, e: Element, acc: seq<Operation>)
    requires Parse(host, Protocol, stack, e, acc).failure.None?
    ensures TypeAttr in LastValues(e.attributes) && host.isProtocolClass(LastValues(e.attributes)[TypeAttr])
    ensures var ops := Parse(host, Protocol, stack, e, acc).ops;
            var protocol := stack + [Segment(ProtocolKey, Some(LastValues(e.attributes)[TypeAttr]))];
            && |ops| == |acc| + 1 + |e.children|
            && ops[..|acc|] == acc
            && ops[|acc|] == Operation(AddProtocolOp, stack, LastValues(e.attributes))
            && (forall k :: 0 <= k < |e.children| ==> ops[|acc| + 1 + k] == PropertyOperation(protocol, e.children[k]))
    ensures forall i :: 0 <= i < |e.attributes| ==> e.attributes[i].localName in Recognized(Protocol)
  {
    TypedAttributes(host, Protocol, e.attributes);
    var protocol := ProtocolAddress(stack, LastValues(e.attributes)[TypeAttr]);
    var nested := ParseChildren(host, Property, protocol, e.children, 0, []);
    PropertiesInOrder(host, protocol, e.children, 0, []);
    var own := Operation(AddProtocolOp, stack, LastValues(e.attributes));
    var ops := acc + [own] + nested.ops;
    assert ops[..|acc|] == acc;
    forall k | 0 <= k < |e.children|
      ensures ops[|acc| + 1 + k] == PropertyOperation(protocol, e.children[k])
    {
      assert ops[|acc| + 1 + k] == nested.ops[k];
    }
  }

  /**
   * How a transport or protocol element fails on its attributes, the list
   * left as it was: the first attribute it does not accept is unexpected if
   * its name is not one of the level's, and otherwise an invalid value (a
   * type whose class does not load among them); with every attribute
   * accepted, a missing type is reported as missing.
   */
  lemma TypedFailures(host: Host, level: Level, parent: Address, e: Element, acc: seq<Operation>, i: nat)
    requires level == Transport || level == Protocol
    ensures i < |e.attributes| && (forall j :: 0 <= j < i ==> Accepted(host, level, e.attributes[j]))
            ==> var a := e.attributes[i];
                && (a.localName !in Recognized(level)
                    ==> Parse(host, level, parent, e, acc) == Stop(acc, UnexpectedAttribute(a.localName)))
                && (a.localName == TypeAttr && !IsClass(host, level, a.value)
                    ==> Parse(host, level, parent, e, acc) == Stop(acc, InvalidAttributeValue(TypeAttr, a.value)))
                && (a.localName in Recognized(level) && !host.accepts(level, a.localName, a.value)
                    ==> Parse(host, level, parent, e, acc) == Stop(acc, InvalidAttributeValue(a.localName, a.value)))
    ensures (forall j :: 0 <= j < |e.attributes| ==> Accepted(host, level, e.attributes[j]))
            && TypeAttr !in Names(e.attributes)
            ==> Parse(host, level, parent, e, acc) == Stop(acc, MissingRequired({TypeAttr}))
  {
    if i < |e.attributes| && (forall j :: 0 <= j < i ==> Accepted(host, level, e.attributes[j])) {
      if !Accepted(host, level, e.attributes[i]) {
        ReadFirstRejection(host, level, map[], e.attributes, i);
      }
    }
    ReadSucceeds(host, level, map[], e.attributes);
    if Read(host, level, map[], e.attributes).Success? && TypeAttr !in Names(e.attributes) {
      ReadIsLastValues(host, level, e.attributes);
    }
  }

  // ------------------------------------------------------------------- stack

  /** Whether a stack or subsystem attribute list gets through its loop: unqualified, and all of the one name. */
  predicate OnlyAttribute(attrs: seq<Attribute>, name: string)
  {
    forall i :: 0 <= i < |attrs| ==> attrs[i].namespace == "" && attrs[i].localName == name
  }

  /**
   * A stack that is read has unqualified name attributes only, at least
   * one; it appends its add operation, with no parameters, addressed to the
   * subsystem followed by stack=(the last name); then its transport's
   * operations, then its protocols', all buffered until the stack was
   * complete. Its first child is the transport and every later one a protocol.
   */
  lemma StackRead(host: Host, subsystem: Address, e: Element, acc: seq<Operation>)
    requires Parse(host, Stack, subsystem, e, acc).failure.None?
    ensures e.attributes != [] && OnlyAttribute(e.attributes, NameAttr)
    ensures e.children != [] && e.children[0].localName == TransportElement
    ensures forall k :: 1 <= k < |e.children| ==> e.children[k].localName == ProtocolElement
    ensures var ops := Parse(host, Stack, subsystem, e, acc).ops;
            var stack := subsystem + [Segment(StackKey, LastValue(e.attributes, NameAttr))];
            && |ops| > |acc|
            && ops[..|acc|] == acc
            && ops[|acc|] == Operation(AddOp, stack, map[])
            && ops[|acc| + 1..] == Parse(host, Transport, stack, e.children[0], []).ops
                                   + ParseChildren(host, Protocol, stack, e.children, 1, []).ops
  {
    ReadSucceeds(host, Stack, map[], e.attributes);
    ReadLastWins(host, Stack, map[], e.attributes);
    var name := Read(host, Stack, map[], e.attributes).value[NameAttr];
    var i := LastValueIndex(e.attributes, NameAttr);
    var stack := StackAddress(subsystem, name);
    var transport := Parse(host, Transport, stack, e.children[0], []);
    ChildrenDispatched(host, Protocol, stack, e.children, 1, transport.ops);
    ChildrenAppend(host, Protocol, stack, e.children, 1, transport.ops, []);
    assert transport.ops + [] == transport.ops;
    var ops := acc + [Operation(AddOp, stack, map[])] + ParseChildren(host, Protocol, stack, e.children, 1, transport.ops).ops;
    assert ops[..|acc|] == acc;
  }

  /**
   * How a stack fails on its own element, the list left as it was: an
   * attribute with a namespace or another name is unexpected, no name is
   * missing, and without a transport as first child the transport is a
   * missing element.
   */
  lemma StackFailures(host: Host, subsystem: Address, e: Element, acc: seq<Operation>, i: nat)
    ensures i < |e.attributes| && OnlyAttribute(e.attributes[..i], NameAttr)
            && (e.attributes[i].namespace != "" || e.attributes[i].localName != NameAttr)
            ==> Parse(host, Stack, subsystem, e, acc) == Stop(acc, UnexpectedAttribute(e.attributes[i].localName))
    ensures e.attributes == [] ==> Parse(host, Stack, subsystem, e, acc) == Stop(acc, MissingRequired({NameAttr}))
    ensures e.attributes != [] && OnlyAttribute(e.attributes, NameAttr)
            && (e.children == [] || e.children[0].localName != TransportElement)
            ==> Parse(host, Stack, subsystem, e, acc) == Stop(acc, MissingRequiredElement({TransportElement}))
  {
    if i < |e.attributes| && OnlyAttribute(e.attributes[..i], NameAttr)
       && (e.attributes[i].namespace != "" || e.attributes[i].localName != NameAttr) {
      assert forall j :: 0 <= j < i ==> e.attributes[..i][j] == e.attributes[j];
      ReadFirstRejection(host, Stack, map[], e.attributes, i);
    }
    ReadSucceeds(host, Stack, map[], e.attributes);
    if e.attributes != [] && OnlyAttribute(e.attributes, NameAttr) {
      ReadLastWins(host, Stack, map[], e.attributes);
      LastValueAt(e.attributes, NameAttr, |e.attributes| - 1);
    }
  }

  /**
   * A child after the transport that is not a protocol fails the stack with
   * UnexpectedElement once the children before it were read, and the
   * caller's list keeps none of the stack's operations.
   */
  lemma StackUnexpectedChild(host: Host, subsystem: Address, e: Element, acc: seq<Operation>, i: nat)
    requires Read(host, Stack, map[], e.attributes).Success? && NameAttr in Read(host, Stack, map[], e.attributes).value
    requires 1 <= i < |e.children| && e.children[0].localName == TransportElement
    requires e.children[i].localName != ProtocolElement
    requires var stack := StackAddress(subsystem, Read(host, Stack, map[], e.attributes).value[NameAttr]);
             var transport := Parse(host, Transport, stack, e.children[0], []);
             transport.failure.None? && ParseChildren(host, Protocol, stack, e.children[..i], 1, transport.ops).failure.None?
    ensures Parse(host, Stack, subsystem, e, acc) == Stop(acc, UnexpectedElement(e.children[i].localName))
  {
    var stack := StackAddress(subsystem, Read(host, Stack, map[], e.attributes).value[NameAttr]);
    var transport := Parse(host, Transport, stack, e.children[0], []);
    UnexpectedChild(host, Protocol, stack, e.children, 1, i, transport.ops);
  }

  // ---------------------------------------------------------------- subsystem

  /** The operation readElement appends for a subsystem with the given default stack. */
  function SubsystemOperation(defaultStack: string): Operation
  {
    Operation(AddOp, [Segment(SubsystemKey, Some(SubsystemName))], map[DefaultStackAttr := defaultStack])
  }

  /**
   * Root attributes that all get through the loop are all default-stack:
   * the parameters hold the last one.
   */
  lemma SubsystemParams(host: Host, e: Element)
    requires e.attributes != [] && forall i :: 0 <= i < |e.attributes| ==> Accepted(host, Subsystem, e.attributes[i])
    ensures LastValue(e.attributes, DefaultStackAttr) == Some(e.attributes[|e.attributes| - 1].value)
    ensures Read(host, Subsystem, map[], e.attributes)
            == Success(map[DefaultStackAttr := e.attributes[|e.attributes| - 1].value])
  {
    ReadSucceeds(host, Subsystem, map[], e.attributes);
    var r := Read(host, Subsystem, map[], e.attributes);
    ReadLastWins(host, Subsystem, map[], e.attributes);
    LastValueAt(e.attributes, DefaultStackAttr, |e.attributes| - 1);
    forall k | k in r.value ensures k == DefaultStackAttr {
      if k != DefaultStackAttr {
        LastValueNone(e.attributes, k);
      }
    }
    assert r.Success?;
    assert DefaultStackAttr in r.value;
    assert r.value[DefaultStackAttr] == e.attributes[|e.attributes| - 1].value;
    assert r.value.Keys == {DefaultStackAttr};
    assert r.value == map[DefaultStackAttr := e.attributes[|e.attributes| - 1].value];
  }

  /**
   * The subsystem operation is appended exactly when the root has at least
   * one attribute and every one is an unqualified default-stack the value
   * definition accepts; it carries the last of them, comes right after what
   * the list held, and stays there whatever the stacks do.
   */
  lemma SubsystemRead(host: Host, e: Element, acc: seq<Operation>)
    ensures SubsystemOutcome(host, e, acc).ops != acc
            <==> e.attributes != [] && forall i :: 0 <= i < |e.attributes| ==> Accepted(host, Subsystem, e.attributes[i])
    ensures SubsystemOutcome(host, e, acc).ops != acc
            ==> LastValue(e.attributes, DefaultStackAttr).Some?
                && |SubsystemOutcome(host, e, acc).ops| > |acc|
                && SubsystemOutcome(host, e, acc).ops[..|acc| + 1]
                   == acc + [SubsystemOperation(LastValue(e.attributes, DefaultStackAttr).value)]
  {
    ReadSucceeds(host, Subsystem, map[], e.attributes);
    if e.attributes != [] && forall i :: 0 <= i < |e.attributes| ==> Accepted(host, Subsystem, e.attributes[i]) {
      SubsystemParams(host, e);
      var op := SubsystemOperation(e.attributes[|e.attributes| - 1].value);
      ChildrenAppend(host, Stack, SubsystemAddress(), e.children, 0, acc + [op], []);
      assert acc + [op] + [] == acc + [op];
      var ops := SubsystemOutcome(host, e, acc).ops;
      assert ops[..|acc| + 1] == acc + [op];
    }
  }

  /**
   * How the root fails on its own attributes, the list left as it was: an
   * attribute with a namespace or another name than default-stack is
   * unexpected, a default-stack the value definition refuses is an invalid
   * value, and no attribute at all is a missing default-stack.
   */
  lemma SubsystemFailures(host: Host, e: Element, acc: seq<Operation>, i: nat)
    ensures i < |e.attributes| && (forall j :: 0 <= j < i ==> Accepted(host, Subsystem, e.attributes[j]))
            ==> var a := e.attributes[i];
                && (a.namespace != "" || a.localName != DefaultStackAttr
                    ==> SubsystemOutcome(host, e, acc) == Stop(acc, UnexpectedAttribute(a.localName)))
                && (a.namespace == "" && a.localName == DefaultStackAttr && !host.accepts(Subsystem, a.localName, a.value)
                    ==> SubsystemOutcome(host, e, acc) == Stop(acc, InvalidAttributeValue(a.localName, a.value)))
    ensures e.attributes == [] ==> SubsystemOutcome(host, e, acc) == Stop(acc, MissingRequired({DefaultStackAttr}))
  {
    if i < |e.attributes| && (forall j :: 0 <= j < i ==> Accepted(host, Subsystem, e.attributes[j]))
       && !Accepted(host, Subsystem, e.attributes[i]) {
      ReadFirstRejection(host, Subsystem, map[], e.attributes, i);
    }
  }

  /**
   * Once the root's attributes are read, a child that is not a stack in the
   * 1.1 namespace, or a stack that fails, ends the read; the list keeps the
   * subsystem operation and every stack read before it, and nothing of a
   * failing stack.
   */
  lemma SubsystemChildFailure(host: Host, e: Element, acc: seq<Operation>, i: nat)
    requires e.attributes != [] && forall j :: 0 <= j < |e.attributes| ==> Accepted(host, Subsystem, e.attributes[j])
    requires i < |e.children|
    requires var op := SubsystemOperation(e.attributes[|e.attributes| - 1].value);
             ParseChildren(host, Stack, SubsystemAddress(), e.children[..i], 0, acc + [op]).failure.None?
    ensures var op := SubsystemOperation(e.attributes[|e.attributes| - 1].value);
            var before := ParseChildren(host, Stack, SubsystemAddress(), e.children[..i], 0, acc + [op]).ops;
            var child := e.children[i];
            && |before| > |acc|
            && before[..|acc| + 1] == acc + [op]
            && (child.namespace != Namespace11 || child.localName != StackElement
                ==> SubsystemOutcome(host, e, acc) == Outcome(before, Some(UnexpectedElement(child.localName))))
            && (child.namespace == Namespace11 && child.localName == StackElement
                && Parse(host, Stack, SubsystemAddress(), child, []).failure.Some?
                ==> SubsystemOutcome(host, e, acc)
                    == Outcome(before, Parse(host, Stack, SubsystemAddress(), child, []).failure))
  {
    SubsystemParams(host, e);
    var op := SubsystemOperation(e.attributes[|e.attributes| - 1].value);
    ChildrenAppend(host, Stack, SubsystemAddress(), e.children[..i], 0, acc + [op], []);
    assert acc + [op] + [] == acc + [op];
    var before := ParseChildren(host, Stack, SubsystemAddress(), e.children[..i], 0, acc + [op]).ops;
    assert before[..|acc| + 1] == acc + [op];
    var child := e.children[i];
    if !Dispatched(Stack, child) {
      UnexpectedChild(host, Stack, SubsystemAddress(), e.children, 0, i, acc + [op]);
    } else if Parse(host, Stack, SubsystemAddress(), child, []).failure.Some? {
      FailingChild(host, Stack, SubsystemAddress(), e.children, 0, i, acc + [op]);
    }
  }
}
