/**
 * Delimited name lists from common.c: slNameListFromString reads a list in
 * which the final delimiter is optional into a linked list of names, and
 * countSeparatedItems counts the names such a list holds.
 */
module Names {
  import opened CLib
  import opened Wrappers
  import opened Common
  import opened SlList
  import opened Tokenize

  /**
   * The names of a delimited list from index i on: up to the next delimiter,
   * then the rest after it; a delimiter at the very end starts no name.
   */
  function NamesFrom(s: seq<char>, i: nat, d: char): (r: seq<seq<char>>)
    requires i <= |s|
    ensures |r| == 0 <==> i == |s|
    decreases |s| - i
  {
    if i == |s| then []
    else
      var e := FindChar(s, i, d);
      if e == |s| then [s[i..]] else [s[i..e]] + NamesFrom(s, e + 1, d)
  }

  /** The names slNameListFromString reads from s. */
  function NameList(s: seq<char>, d: char): seq<seq<char>>
  {
    NamesFrom(s, 0, d)
  }

  /** One step of the name list: the name up to the delimiter, then the names after it. */
  lemma NamesFromStep(s: seq<char>, i: nat, d: char)
    requires i < |s|
    ensures FindChar(s, i, d) == |s| ==> NamesFrom(s, i, d) == [s[i..]]
    ensures FindChar(s, i, d) < |s| ==> NamesFrom(s, i, d) == [s[i..FindChar(s, i, d)]] + NamesFrom(s, FindChar(s, i, d) + 1, d)
  {
  }

  /** The number of occurrences of c in s from index i on. */
  function CountFrom(s: seq<char>, i: nat, c: char): (n: nat)
    requires i <= |s|
    ensures n <= |s| - i
    decreases |s| - i
  {
    if i == |s| then 0 else (if s[i] == c then 1 else 0) + CountFrom(s, i + 1, c)
  }

  /** strchr passes no occurrence of c. */
  lemma {:induction false} CountFromFindChar(s: seq<char>, i: nat, c: char)
    requires i <= |s|
    ensures CountFrom(s, i, c) == CountFrom(s, FindChar(s, i, c), c)
    decreases |s| - i
  {
    if i < |s| && s[i] != c {
      CountFromFindChar(s, i + 1, c);
    }
  }

  /** Count of names: one per delimiter, plus one for a final name not ended by a delimiter. */
  lemma {:induction false} NamesFromLength(s: seq<char>, i: nat, d: char)
    requires i <= |s|
    ensures |NamesFrom(s, i, d)| == CountFrom(s, i, d) + (if i < |s| && s[|s| - 1] != d then 1 else 0)
    decreases |s| - i
  {
    if i < |s| {
      var e := FindChar(s, i, d);
      CountFromFindChar(s, i, d);
      NamesFromStep(s, i, d);
      if e < |s| {
        NamesFromLength(s, e + 1, d);
        assert |NamesFrom(s, i, d)| == 1 + |NamesFrom(s, e + 1, d)|;
        assert CountFrom(s, e, d) == 1 + CountFrom(s, e + 1, d);
      } else {
        FindCharSkipped(s, i, d);
        assert CountFrom(s, i, d) == 0;
      }
    }
  }

  /** strchr stops at the first delimiter: there is none before it, and a string without one does not end with one. */
  lemma NoDelimiterBefore(s: seq<char>, i: nat, d: char)
    requires i <= |s|
    ensures d !in s[i..FindChar(s, i, d)]
    ensures FindChar(s, i, d) == |s| && i < |s| ==> s[|s| - 1] != d
  {
    var e := FindChar(s, i, d);
    FindCharSkipped(s, i, d);
    var w := s[i..e];
    forall j | 0 <= j < |w| ensures w[j] != d {
      assert w[j] == s[i + j];
    }
  }

  /** The end of the text a list's names cover: a final delimiter is left out. */
  function ListEnd(s: seq<char>, d: char): (n: nat)
    ensures n <= |s| && (n < |s| <==> |s| > 0 && s[|s| - 1] == d)
  {
    if |s| > 0 && s[|s| - 1] == d then |s| - 1 else |s|
  }

  /** Joining the names from i on with the delimiter gives s[i..] back, less a final delimiter. */
  lemma {:induction false} NamesFromJoin(s: seq<char>, i: nat, d: char)
    requires i < |s|
    ensures i <= ListEnd(s, d) && Join(NamesFrom(s, i, d), d) == s[i..ListEnd(s, d)]
    decreases |s| - i
  {
    var e := FindChar(s, i, d);
    if e + 1 < |s| {
      NamesFromJoin(s, e + 1, d);
      JoinNextName(s, i, e, ListEnd(s, d), d);
    } else {
      JoinLastName(s, i, e, d);
    }
  }

  /** The join of the names when the first one is the last. */
  lemma JoinLastName(s: seq<char>, i: nat, e: nat, d: char)
    requires i < |s| && e == FindChar(s, i, d) && e + 1 >= |s|
    ensures i <= ListEnd(s, d) && Join(NamesFrom(s, i, d), d) == s[i..ListEnd(s, d)]
  {
    NamesFromStep(s, i, d);
    if e == |s| {
      NoDelimiterBefore(s, i, d);
      assert s[i..] == s[i..|s|];
    }
  }

  /** The join of the names when more follow the first: the inductive step. */
  lemma JoinNextName(s: seq<char>, i: nat, e: nat, hi: nat, d: char)
    requires i < |s| && e == FindChar(s, i, d) && e + 1 < |s| && e < hi <= |s|
    requires Join(NamesFrom(s, e + 1, d), d) == s[e + 1..hi]
    ensures Join(NamesFrom(s, i, d), d) == s[i..hi]
  {
    var R := NamesFrom(s, e + 1, d);
    NamesFromStep(s, i, d);
    assert NamesFrom(s, i, d) == [s[i..e]] + R;
    JoinGlue(s, i, e, hi, s[i..e], R, d);
  }

  /** No name holds the delimiter. */
  lemma {:induction false} NamesFromNoDelimiter(s: seq<char>, i: nat, d: char)
    requires i <= |s|
    ensures forall k | 0 <= k < |NamesFrom(s, i, d)| :: d !in NamesFrom(s, i, d)[k]
    decreases |s| - i
  {
    if i < |s| {
      var e := FindChar(s, i, d);
      FindCharSkipped(s, i, d);
      var N := NamesFrom(s, i, d);
      forall j | 0 <= j < e - i ensures s[i..e][j] != d {
        assert s[i..e][j] == s[i + j];
      }
      if e < |s| {
        NamesFromNoDelimiter(s, e + 1, d);
        assert N == [s[i..e]] + NamesFrom(s, e + 1, d);
      }
    }
  }

  /** slNameListFromString's names undo joining: they join back to s (less a final delimiter) and hold no delimiter. */
  lemma NameListJoin(s: seq<char>, d: char)
    ensures Join(NameList(s, d), d) == if |s| > 0 && s[|s| - 1] == d then s[..|s| - 1] else s
    ensures forall k | 0 <= k < |NameList(s, d)| :: d !in NameList(s, d)[k]
  {
    if |s| > 0 {
      NamesFromJoin(s, 0, d);
      assert s[..|s|] == s;
    }
    NamesFromNoDelimiter(s, 0, d);
  }

  /** From index i on, a list and the same list with a final delimiter added read the same names. */
  lemma {:induction false} TrailingDelimiterFrom(s: seq<char>, i: nat, d: char)
    requires i < |s| && s[|s| - 1] != d
    ensures NamesFrom(s + [d], i, d) == NamesFrom(s, i, d)
    decreases |s| - i
  {
    var e := FindChar(s, i, d);
    if e < |s| {
      assert e + 1 < |s|;
      TrailingDelimiterFrom(s, e + 1, d);
    }
    TrailingDelimiterStep(s, i, d);
  }

  /** One name of the list: the same name, then the same rest, whether or not a delimiter is appended. */
  lemma TrailingDelimiterStep(s: seq<char>, i: nat, d: char)
    requires i < |s| && s[|s| - 1] != d
    requires FindChar(s, i, d) < |s| ==>
      NamesFrom(s + [d], FindChar(s, i, d) + 1, d) == NamesFrom(s, FindChar(s, i, d) + 1, d)
    ensures NamesFrom(s + [d], i, d) == NamesFrom(s, i, d)
  {
    var t := s + [d];
    var e := FindChar(s, i, d);
    FindCharExtended(s, i, d);
    assert t[i..e] == s[i..e];
    if e == |s| {
      assert NamesFrom(t, e + 1, d) == [];
    }
  }

  /** "a,b,c" and "a,b,c," read the same names: the final delimiter is optional. */
  lemma TrailingDelimiterOptional(s: seq<char>, d: char)
    requires |s| > 0 && s[|s| - 1] != d
    ensures NameList(s + [d], d) == NameList(s, d)
  {
    TrailingDelimiterFrom(s, 0, d);
  }

  /**
   * countSeparatedItems: counts the separators, plus one when the string
   * does not end with a separator and is not empty; that is the number of
   * names slNameListFromString reads.
   */
  method CountSeparatedItems(str: seq<char>, separator: char) returns (count: nat)
    requires IsCString(str)
    ensures count == |NameList(str, separator)|
  {
    count := 0;
    var lastC := '\0';
    var i := 0;
    while i < |str|
      invariant i <= |str| && count + CountFrom(str, i, separator) == CountFrom(str, 0, separator)
      invariant lastC == if i == 0 then '\0' else str[i - 1]
    {
      var c := str[i];
      if c == separator {
        count := count + 1;
      }
      lastC := c;
      i := i + 1;
    }
    if lastC != separator && lastC != '\0' {
      count := count + 1;
    }
    NamesFromLength(str, 0, separator);
  }

  /** The payloads of the nodes, in order. */
  ghost function Vals<T>(nodes: seq<Node<T>>): (r: seq<T>)
    ensures |r| == |nodes| && forall k | 0 <= k < |nodes| :: r[k] == nodes[k].val
  {
    seq(|nodes|, k requires 0 <= k < |nodes| => nodes[k].val)
  }

  /**
   * slNameListFromString: takes the text up to each delimiter (strchr) as a
   * name and pushes it onto the front of a new list, steps past the
   * delimiter, stops at the end of the string, then reverses the list.
   * A zero delimiter would make strchr find the terminator and the walk step
   * past the end of the string.
   */
  method SlNameListFromString(s: seq<char>, delimiter: char) returns (list: Node?<seq<char>>, ghost nodes: seq<Node<seq<char>>>)
    requires IsCString(s) && delimiter != '\0'
    ensures IsList(list, nodes) && fresh(Footprint(nodes))
    ensures Vals(nodes) == NameList(s, delimiter)
  {
    var rev;
    ghost var rk;
    rev, rk := NamesReversed(s, delimiter);
    RevValsReversed(rk);
    FootprintReversed(rk);
    list := SlReverse(rev, rk);
    nodes := Reversed(rk);
  }

  /** The loop of slNameListFromString: each name pushed onto the head of a new list, so last name first. */
  method NamesReversed(s: seq<char>, delimiter: char) returns (rev: Node?<seq<char>>, ghost rk: seq<Node<seq<char>>>)
    ensures IsList(rev, rk) && fresh(Footprint(rk))
    ensures RevVals(rk) == NameList(s, delimiter)
  {
    var rest: Option<nat> := Some(0);
    rev := null;
    rk := [];
    while rest.Some? && rest.value < |s|
      invariant IsList(rev, rk) && fresh(Footprint(rk))
      invariant Collected(s, delimiter, rk, rest)
      decreases if rest.Some? then |s| - rest.value + 1 else 0
    {
      var name, rest' := NextName(s, rest.value, delimiter);
      var el := new Node(name);
      CollectedStep(s, delimiter, rk, rest.value, el, rest');
      rest := rest';
      rev := SlAddHead(rev, rk, el);
      rk := [el] + rk;
    }
  }

  /**
   * The names gathered so far, held last first in the nodes rk, followed by
   * the names still to read from rest on, are the names of s.
   */
  ghost predicate Collected(s: seq<char>, d: char, rk: seq<Node<seq<char>>>, rest: Option<nat>)
  {
    && (rest.Some? ==> rest.value <= |s| && RevVals(rk) + NamesFrom(s, rest.value, d) == NameList(s, d))
    && (rest.None? ==> RevVals(rk) == NameList(s, d))
  }

  /** Reading the name at p into a new node el keeps the names collected. */
  lemma CollectedStep(s: seq<char>, d: char, rk: seq<Node<seq<char>>>, p: nat, el: Node<seq<char>>, rest: Option<nat>)
    requires p < |s| && Collected(s, d, rk, Some(p))
    requires rest.Some? ==> p < rest.value <= |s| && [el.val] + NamesFrom(s, rest.value, d) == NamesFrom(s, p, d)
    requires rest.None? ==> [el.val] == NamesFrom(s, p, d)
    ensures Collected(s, d, [el] + rk, rest)
  {
    assert RevVals([el] + rk) == RevVals(rk) + [el.val] by {
      assert ([el] + rk)[1..] == rk;
    }
  }

  /** One turn of slNameListFromString: the name at p and where the rest of the list starts, if anywhere. */
  method NextName(s: seq<char>, p: nat, delimiter: char) returns (name: seq<char>, rest: Option<nat>)
    requires p < |s|
    ensures rest.Some? ==> p < rest.value <= |s|
    ensures rest.Some? ==> [name] + NamesFrom(s, rest.value, delimiter) == NamesFrom(s, p, delimiter)
    ensures rest.None? ==> [name] == NamesFrom(s, p, delimiter)
  {
    var e := FindChar(s, p, delimiter);
    NamesFromStep(s, p, delimiter);
    if e == |s| {
      name := s[p..];
      rest := None;
    } else {
      name := s[p..e];
      rest := Some(e + 1);
    }
  }

  /** The payloads of the nodes, last node first. */
  ghost function RevVals<T>(nodes: seq<Node<T>>): seq<T>
  {
    if |nodes| == 0 then [] else RevVals(nodes[1..]) + [nodes[0].val]
  }

  /** RevVals lists the payloads of the reversed nodes. */
  lemma {:induction false} RevValsReversed<T>(nodes: seq<Node<T>>)
    ensures RevVals(nodes) == Vals(Reversed(nodes))
  {
    if |nodes| > 0 {
      RevValsReversed(nodes[1..]);
      assert Reversed(nodes) == Reversed(nodes[1..]) + [nodes[0]];
    }
  }
}
