/**
 * How the parse methods treat the list they are given: they only ever
 * append to it, a nested element that fails leaves it as it was, and a
 * child loop is its completed prefix followed by the rest.
 */
module ReaderStructure {
  import opened Wrappers
  import opened Stax
  import opened Dmr
  import opened Schema
  import opened Attributes
  import opened ReaderSpec

  /** A completed resource appends its own operation and its local list to whatever the list held. */
  lemma CompleteAppends(acc: seq<Operation>, own: Operation, nested: Outcome)
    ensures Complete(acc, own, nested) == Outcome(acc + Complete([], own, nested).ops, nested.failure)
  {
    if nested.failure.None? {
      assert acc + [own] + nested.ops == acc + ([] + [own] + nested.ops);
    }
  }

  lemma StackAppends(host: Host, parent: Address, e: Element, acc: seq<Operation>)
    ensures StackOutcome(host, parent, e, acc)
            == Outcome(acc + StackOutcome(host, parent, e, []).ops, StackOutcome(host, parent, e, []).failure)
  {
    var r := Read(host, Stack, map[], e.attributes);
    if r.Success? && NameAttr in r.value && e.children != [] && e.children[0].localName == TransportElement {
      var stack := StackAddress(parent, r.value[NameAttr]);
      var transport := Parse(host, Transport, stack, e.children[0], []);
      CompleteAppends(acc, Operation(AddOp, stack, map[]), ParseChildren(host, Protocol, stack, e.children, 1, transport.ops));
    }
  }

  lemma TransportAppends(host: Host, stack: Address, e: Element, acc: seq<Operation>)
    ensures TransportOutcome(host, stack, e, acc)
            == Outcome(acc + TransportOutcome(host, stack, e, []).ops, TransportOutcome(host, stack, e, []).failure)
  {
    var r := Read(host, Transport, map[], e.attributes);
    if r.Success? {
      CompleteAppends(acc, Operation(AddOp, TransportAddress(stack), r.value),
                      ParseChildren(host, Property, TransportAddress(stack), e.children, 0, []));
    }
  }

  lemma ProtocolAppends(host: Host, stack: Address, e: Element, acc: seq<Operation>)
    ensures ProtocolOutcome(host, stack, e, acc)
            == Outcome(acc + ProtocolOutcome(host, stack, e, []).ops, ProtocolOutcome(host, stack, e, []).failure)
  {
    var r := Read(host, Protocol, map[], e.attributes);
    if r.Success? && TypeAttr in r.value {
      CompleteAppends(acc, Operation(AddProtocolOp, stack, r.value),
                      ParseChildren(host, Property, ProtocolAddress(stack, r.value[TypeAttr]), e.children, 0, []));
    }
  }

  /**
   * Below the root, what an element's parser appends does not depend on
   * what the list held before, and a failing element appends nothing.
   */
  lemma ElementAppends(host: Host, level: Level, parent: Address, e: Element, acc: seq<Operation>)
    requires level != Subsystem
    ensures Parse(host, level, parent, e, acc)
            == Outcome(acc + Parse(host, level, parent, e, []).ops, Parse(host, level, parent, e, []).failure)
    ensures Parse(host, level, parent, e, acc).failure.Some? ==> Parse(host, level, parent, e, acc).ops == acc
  {
    match level
    case Stack => StackAppends(host, parent, e, acc);
    case Transport => TransportAppends(host, parent, e, acc);
    case Protocol => ProtocolAppends(host, parent, e, acc);
    case Property =>
  }

  /** A child loop only appends to the list it is given. */
  lemma {:induction false} ChildrenAppend(host: Host, level: Level, parent: Address, children: seq<Element>,
                                          from: nat, front: seq<Operation>, acc: seq<Operation>)
    requires level != Subsystem
    ensures ParseChildren(host, level, parent, children, from, front + acc)
            == Outcome(front + ParseChildren(host, level, parent, children, from, acc).ops,
                       ParseChildren(host, level, parent, children, from, acc).failure)
    decreases |children| - from
  {
    if from < |children| && Dispatched(level, children[from]) {
      var child := children[from];
      ElementAppends(host, level, parent, child, front + acc);
      ElementAppends(host, level, parent, child, acc);
      var o := Parse(host, level, parent, child, acc);
      assert front + acc + Parse(host, level, parent, child, []).ops == front + o.ops;
      if o.failure.None? {
        ChildrenAppend(host, level, parent, children, from + 1, front, o.ops);
      }
    }
  }

  /** The root too only appends to the list it is given. */
  lemma SubsystemAppends(host: Host, e: Element, acc: seq<Operation>)
    ensures SubsystemOutcome(host, e, acc)
            == Outcome(acc + SubsystemOutcome(host, e, []).ops, SubsystemOutcome(host, e, []).failure)
  {
    match Read(host, Subsystem, map[], e.attributes)
    case Failure(_) =>
    case Success(params) =>
      if DefaultStackAttr in params {
        var op := Operation(AddOp, SubsystemAddress(), params);
        assert [] + [op] == [op];
        ChildrenAppend(host, Stack, SubsystemAddress(), e.children, 0, acc, [op]);
      }
  }

  /**
   * A child loop is the loop over the children before position i, then,
   * unless that failed, the loop from i on, continuing the same list.
   */
  lemma {:induction false} ChildrenPrefix(host: Host, level: Level, parent: Address, children: seq<Element>,
                                          from: nat, i: nat, acc: seq<Operation>)
    requires from <= i <= |children|
    ensures var prefix := ParseChildren(host, level, parent, children[..i], from, acc);
            ParseChildren(host, level, parent, children, from, acc)
            == if prefix.failure.Some? then prefix else ParseChildren(host, level, parent, children, i, prefix.ops)
    decreases i - from
  {
    if from < i {
      assert children[..i][from] == children[from];
      var o := Parse(host, level, parent, children[from], acc);
      if Dispatched(level, children[from]) && o.failure.None? {
        ChildrenPrefix(host, level, parent, children, from + 1, i, o.ops);
      }
    }
  }

  /**
   * A child the loop does not accept ends it with UnexpectedElement; the
   * list keeps what the children before it appended.
   */
  lemma UnexpectedChild(host: Host, level: Level, parent: Address, children: seq<Element>,
                        from: nat, i: nat, acc: seq<Operation>)
    requires from <= i < |children| && !Dispatched(level, children[i])
    requires ParseChildren(host, level, parent, children[..i], from, acc).failure.None?
    ensures ParseChildren(host, level, parent, children, from, acc)
            == Outcome(ParseChildren(host, level, parent, children[..i], from, acc).ops,
                       Some(UnexpectedElement(children[i].localName)))
  {
    ChildrenPrefix(host, level, parent, children, from, i, acc);
  }

  /**
   * Below the root, a child whose parse fails ends the loop with its
   * failure; the list keeps what the children before it appended and
   * nothing of the failing child.
   */
  lemma FailingChild(host: Host, level: Level, parent: Address, children: seq<Element>,
                     from: nat, i: nat, acc: seq<Operation>)
    requires level != Subsystem
    requires from <= i < |children| && Dispatched(level, children[i])
    requires ParseChildren(host, level, parent, children[..i], from, acc).failure.None?
    requires Parse(host, level, parent, children[i], []).failure.Some?
    ensures ParseChildren(host, level, parent, children, from, acc)
            == Outcome(ParseChildren(host, level, parent, children[..i], from, acc).ops,
                       Parse(host, level, parent, children[i], []).failure)
  {
    ChildrenPrefix(host, level, parent, children, from, i, acc);
    ElementAppends(host, level, parent, children[i], ParseChildren(host, level, parent, children[..i], from, acc).ops);
  }

  /** A child loop that completes accepted every child it met. */
  lemma {:induction false} ChildrenDispatched(host: Host, level: Level, parent: Address, children: seq<Element>,
                                              from: nat, acc: seq<Operation>)
    requires ParseChildren(host, level, parent, children, from, acc).failure.None?
    ensures forall k :: from <= k < |children| ==> Dispatched(level, children[k])
    decreases |children| - from
  {
    if from < |children| {
      ChildrenDispatched(host, level, parent, children, from + 1, Parse(host, level, parent, children[from], acc).ops);
    }
  }
}
