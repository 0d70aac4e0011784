/** The interactive selector's choice list: every class of the table except
    the marker interface, pre-checked when the class descends from it. The
    schema library's `classAncestors` is a parameter of the model. */
module Selector {

  /** Name of the marker interface class. */
  const DH_INTERFACE: string := "dh_interface"

  /** One entry of the checkbox question. */
  datatype Choice = Choice(name: string, checked: bool)

  /** `names.filter(name => name !== DH_INTERFACE)`: the names other than
      the marker, in their order. */
  function WithoutMarker(names: seq<string>): (r: seq<string>)
    ensures forall x :: x in r <==> x in names && x != DH_INTERFACE
  {
    if names == [] then []
    else
      (if names[0] == DH_INTERFACE then [] else [names[0]]) + WithoutMarker(names[1..])
  }

  /** Exactly the marker's occurrences are dropped. */
  lemma {:induction false} WithoutMarkerCount(names: seq<string>)
    ensures |WithoutMarker(names)| + multiset(names)[DH_INTERFACE] == |names|
  {
    if names != [] {
      assert names == [names[0]] + names[1..];
      WithoutMarkerCount(names[1..]);
    }
  }

  /** The filter keeps the table order: it distributes over concatenation. */
  lemma {:induction false} WithoutMarkerAppend(a: seq<string>, b: seq<string>)
    ensures WithoutMarker(a + b) == WithoutMarker(a) + WithoutMarker(b)
  {
    if a != [] {
      assert (a + b)[1..] == a[1..] + b;
      assert (a + b)[0] == a[0];
      WithoutMarkerAppend(a[1..], b);
    } else {
      assert a + b == b;
    }
  }

  /** The `choices` of the checkbox question, built from the class names in
      table order. */
  function Choices(classNames: seq<string>, ancestors: string -> seq<string>): (r: seq<Choice>)
    ensures forall i :: 0 <= i < |r| ==> r[i].name in classNames && r[i].name != DH_INTERFACE
    ensures forall i :: 0 <= i < |r| ==> (r[i].checked <==> DH_INTERFACE in ancestors(r[i].name))
  {
    var kept := WithoutMarker(classNames);
    seq(|kept|, i requires 0 <= i < |kept| => Choice(kept[i], DH_INTERFACE in ancestors(kept[i])))
  }

  /** A class is offered if and only if it is in the table and is not the
      marker itself. */
  lemma ChoicesOffered(classNames: seq<string>, ancestors: string -> seq<string>, x: string)
    ensures (exists i :: 0 <= i < |Choices(classNames, ancestors)| && Choices(classNames, ancestors)[i].name == x)
        <==> x in classNames && x != DH_INTERFACE
  {
    var kept := WithoutMarker(classNames);
    if x in classNames && x != DH_INTERFACE {
      var i :| 0 <= i < |kept| && kept[i] == x;
      assert Choices(classNames, ancestors)[i].name == x;
    }
  }

  /** Every table entry is offered except the marker's: one choice fewer
      for each occurrence of the marker. */
  lemma ChoicesCount(classNames: seq<string>, ancestors: string -> seq<string>)
    ensures |Choices(classNames, ancestors)| + multiset(classNames)[DH_INTERFACE] == |classNames|
  {
    WithoutMarkerCount(classNames);
  }

  /** A class of the table other than the marker whose ancestors include
      the name "dh_interface" is offered, pre-checked. */
  lemma ChoicesDescendantChecked(classNames: seq<string>, ancestors: string -> seq<string>, x: string)
    requires x in classNames && x != "dh_interface" && "dh_interface" in ancestors(x)
    ensures exists i :: 0 <= i < |Choices(classNames, ancestors)| && Choices(classNames, ancestors)[i] == Choice(x, true)
  {
    ChoicesOffered(classNames, ancestors, x);
  }

  /** The choices come in table order: the list for a concatenation of
      tables is the concatenation of their lists. */
  lemma ChoicesAppend(a: seq<string>, b: seq<string>, ancestors: string -> seq<string>)
    ensures Choices(a + b, ancestors) == Choices(a, ancestors) + Choices(b, ancestors)
  {
    WithoutMarkerAppend(a, b);
  }

  /** The list for a table is the first class's choice, if any, followed by
      the list for the rest of the table. */
  lemma ChoicesCons(name: string, rest: seq<string>, ancestors: string -> seq<string>)
    ensures Choices([name] + rest, ancestors)
         == (if name == DH_INTERFACE then [] else [Choice(name, DH_INTERFACE in ancestors(name))]) + Choices(rest, ancestors)
  {
    ChoicesAppend([name], rest, ancestors);
    ChoicesSingle(name, ancestors);
  }

  /** One class yields one choice unless it is the marker. */
  lemma ChoicesSingle(name: string, ancestors: string -> seq<string>)
    ensures Choices([name], ancestors) == if name == DH_INTERFACE then [] else [Choice(name, DH_INTERFACE in ancestors(name))]
  {
    assert [name][1..] == [];
    assert WithoutMarker([name]) == if name == DH_INTERFACE then [] else [name];
  }

  /** Classes `a` and `b` that do not descend from the marker and `c` that
      does, listed with the marker itself: `a` and `b` are offered
      unchecked, `c` checked, and the marker is not offered. */
  lemma ChoicesScenario(a: string, b: string, c: string, ancestors: string -> seq<string>)
    requires a != DH_INTERFACE && b != DH_INTERFACE && c != DH_INTERFACE
    requires DH_INTERFACE !in ancestors(a) && DH_INTERFACE !in ancestors(b) && DH_INTERFACE in ancestors(c)
    ensures Choices([a, b, DH_INTERFACE, c], ancestors) == [Choice(a, false), Choice(b, false), Choice(c, true)]
  {
    var table := [a, b, DH_INTERFACE, c];
    assert WithoutMarker([c]) == [c] by { assert [c][1..] == []; }
    assert WithoutMarker([DH_INTERFACE, c]) == [c] by { assert [DH_INTERFACE, c][1..] == [c]; }
    assert WithoutMarker([b, DH_INTERFACE, c]) == [b, c] by { assert [b, DH_INTERFACE, c][1..] == [DH_INTERFACE, c]; }
    assert WithoutMarker(table) == [a, b, c] by { assert table[1..] == [b, DH_INTERFACE, c]; }
    var r := Choices(table, ancestors);
    assert |r| == 3 && r[0] == Choice(a, false) && r[1] == Choice(b, false) && r[2] == Choice(c, true);
  }
}
