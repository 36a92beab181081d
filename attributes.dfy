/**
 * The attribute loop every parse method starts with: for each attribute in
 * document order, reject it, or store its value under its name (a later
 * attribute of the same name overwrites an earlier one).
 */
module Attributes {
  import opened Wrappers
  import opened Stax
  import opened Schema

  /** Whether an attribute gets through the switch of the level's parser. */
  predicate Accepted(host: Host, level: Level, a: Attribute)
  {
    !(NoNamespaceRequired(level) && a.namespace != "")
    && a.localName in Recognized(level)
    && Validated(host, level, a.localName, a.value)
  }

  /** The failure the level's parser reports for an attribute it does not accept. */
  function Rejection(host: Host, level: Level, a: Attribute): Error
  {
    if (NoNamespaceRequired(level) && a.namespace != "") || a.localName !in Recognized(level)
    then UnexpectedAttribute(a.localName)
    else InvalidAttributeValue(a.localName, a.value)
  }

  /** The parameters the loop holds after reading attrs, starting from params. */
  function Read(host: Host, level: Level, params: map<string, string>, attrs: seq<Attribute>)
    : Result<map<string, string>, Error>
    decreases |attrs|
  {
    if attrs == [] then Success(params)
    else if !Accepted(host, level, attrs[0]) then Failure(Rejection(host, level, attrs[0]))
    else Read(host, level, params[attrs[0].localName := attrs[0].value], attrs[1..])
  }

  /** Reference definition: the value of the last attribute with the given local name. */
  function LastValue(attrs: seq<Attribute>, name: string): Option<string>
    decreases |attrs|
  {
    if attrs == [] then None
    else match LastValue(attrs[1..], name)
      case Some(v) => Some(v)
      case None => if attrs[0].localName == name then Some(attrs[0].value) else None
  }

  /** The local names that occur in attrs. */
  function Names(attrs: seq<Attribute>): set<string>
  {
    set i | 0 <= i < |attrs| :: attrs[i].localName
  }

  /** Reference definition of a completed loop: each name that occurs, with its last value. */
  function LastValues(attrs: seq<Attribute>): map<string, string>
  {
    map name | name in Names(attrs) && LastValue(attrs, name).Some? :: LastValue(attrs, name).value
  }

  /** The loop itself, as each parse method runs it over the current element. */
  method ReadAttributes(host: Host, level: Level, attrs: seq<Attribute>)
    returns (r: Result<map<string, string>, Error>)
    ensures r == Read(host, level, map[], attrs)
  {
    var params: map<string, string> := map[];
    for i := 0 to |attrs|
      invariant Read(host, level, map[], attrs) == Read(host, level, params, attrs[i..])
    {
      var a := attrs[i];
      assert attrs[i..][0] == a && attrs[i..][1..] == attrs[i + 1..];
      if NoNamespaceRequired(level) && a.namespace != "" {
        return Failure(UnexpectedAttribute(a.localName));
      }
      if a.localName !in Recognized(level) {
        return Failure(UnexpectedAttribute(a.localName));
      }
      if !Validated(host, level, a.localName, a.value) {
        return Failure(InvalidAttributeValue(a.localName, a.value));
      }
      params := params[a.localName := a.value];
    }
    assert attrs[|attrs|..] == [];
    return Success(params);
  }

  /** The loop completes exactly when every attribute is accepted. */
  lemma {:induction false} ReadSucceeds(host: Host, level: Level, params: map<string, string>, attrs: seq<Attribute>)
    ensures Read(host, level, params, attrs).Success?
            <==> forall i :: 0 <= i < |attrs| ==> Accepted(host, level, attrs[i])
    decreases |attrs|
  {
    if attrs != [] {
      ReadSucceeds(host, level, params[attrs[0].localName := attrs[0].value], attrs[1..]);
      assert forall i :: 1 <= i < |attrs| ==> attrs[i] == attrs[1..][i - 1];
    }
  }

  /** The first attribute that is not accepted decides the failure. */
  lemma {:induction false} ReadFirstRejection(host: Host, level: Level, params: map<string, string>,
                                              attrs: seq<Attribute>, i: nat)
    requires i < |attrs|
    requires forall j :: 0 <= j < i ==> Accepted(host, level, attrs[j])
    requires !Accepted(host, level, attrs[i])
    ensures Read(host, level, params, attrs) == Failure(Rejection(host, level, attrs[i]))
    decreases i
  {
    if i > 0 {
      assert Accepted(host, level, attrs[0]);
      assert forall j :: 0 <= j < i - 1 ==> attrs[1..][j] == attrs[j + 1];
      ReadFirstRejection(host, level, params[attrs[0].localName := attrs[0].value], attrs[1..], i - 1);
    }
  }

  /**
   * A completed loop holds, for every name, the value of the last attribute
   * of that name, and keeps the starting value of every other name.
   */
  lemma {:induction false} ReadLastWins(host: Host, level: Level, params: map<string, string>, attrs: seq<Attribute>)
    requires Read(host, level, params, attrs).Success?
    ensures forall k :: k in Read(host, level, params, attrs).value <==> k in params || LastValue(attrs, k).Some?
    ensures forall k :: LastValue(attrs, k).Some? ==> Read(host, level, params, attrs).value[k] == LastValue(attrs, k).value
    ensures forall k :: k in params && LastValue(attrs, k).None? ==> Read(host, level, params, attrs).value[k] == params[k]
    decreases |attrs|
  {
    if attrs != [] {
      ReadLastWins(host, level, params[attrs[0].localName := attrs[0].value], attrs[1..]);
    }
  }

  /** No value is found exactly when no attribute has the name. */
  lemma {:induction false} LastValueNone(attrs: seq<Attribute>, name: string)
    ensures LastValue(attrs, name).None? <==> forall i :: 0 <= i < |attrs| ==> attrs[i].localName != name
    decreases |attrs|
  {
    if attrs != [] {
      LastValueNone(attrs[1..], name);
      assert forall i :: 1 <= i < |attrs| ==> attrs[i] == attrs[1..][i - 1];
    }
  }

  /** The value found is that of the attribute no later attribute of the same name follows. */
  lemma {:induction false} LastValueAt(attrs: seq<Attribute>, name: string, i: nat)
    requires i < |attrs| && attrs[i].localName == name
    requires forall j :: i < j < |attrs| ==> attrs[j].localName != name
    ensures LastValue(attrs, name) == Some(attrs[i].value)
    decreases i
  {
    if i == 0 {
      LastValueNone(attrs[1..], name);
    } else {
      LastValueAt(attrs[1..], name, i - 1);
    }
  }

  /** A value found belongs to some attribute of that name. */
  lemma {:induction false} LastValueIndex(attrs: seq<Attribute>, name: string) returns (i: nat)
    requires LastValue(attrs, name).Some?
    ensures i < |attrs| && attrs[i].localName == name && attrs[i].value == LastValue(attrs, name).value
    decreases |attrs|
  {
    if LastValue(attrs[1..], name).Some? {
      var j := LastValueIndex(attrs[1..], name);
      i := j + 1;
    } else {
      i := 0;
    }
  }

  /** A loop that completes from no parameters holds exactly the last value of each name. */
  lemma ReadIsLastValues(host: Host, level: Level, attrs: seq<Attribute>)
    requires Read(host, level, map[], attrs).Success?
    ensures Read(host, level, map[], attrs).value == LastValues(attrs)
  {
    ReadLastWins(host, level, map[], attrs);
    var params := Read(host, level, map[], attrs).value;
    forall name | name in params
      ensures name in Names(attrs)
    {
      var i := LastValueIndex(attrs, name);
    }
  }
}
