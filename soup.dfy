/**
 * The parsed HTML tree that BeautifulSoup hands to the extractor, and the
 * three things the extractor asks of it: `find_all(name, class_=...)`,
 * `find(name, class_=...)` and `.text`.
 */
module Soup {
  import opened Wrappers
  import opened PyStr

  /**
   * A node of the parsed document: an element with its tag name, the tokens
   * of its `class` attribute in source order (empty when it has none) and
   * its children, or a run of text.
   */
  datatype Node =
    | Elem(tag: string, classes: seq<string>, children: seq<Node>)
    | TextNode(text: string)

  /** The nodes below `n`, in document (pre-)order; `n` itself is not among them. */
  function Descendants(n: Node): seq<Node>
  {
    match n
    case TextNode(_) => []
    case Elem(_, _, cs) => DescendantsOfAll(cs)
  }

  /** Each node of `cs` followed by its own descendants, in order. */
  function DescendantsOfAll(cs: seq<Node>): seq<Node>
  {
    if cs == [] then [] else [cs[0]] + Descendants(cs[0]) + DescendantsOfAll(cs[1..])
  }

  /** The text runs among `ns`, concatenated in order. */
  function Strings(ns: seq<Node>): string
  {
    if ns == [] then ""
    else (if ns[0].TextNode? then ns[0].text else "") + Strings(ns[1..])
  }

  /** `.text`: all text below an element in document order; a text run is its own text. */
  function Text(n: Node): (r: string)
    ensures n.Elem? ==> r == TextOfAll(n.children)
    decreases n, 2
  {
    match n
    case TextNode(t) => t
    case Elem(_, _, cs) => StringsOfAll(cs); Strings(Descendants(n))
  }

  lemma {:induction false} StringsAppend(a: seq<Node>, b: seq<Node>)
    ensures Strings(a + b) == Strings(a) + Strings(b)
  {
    if a != [] {
      assert (a + b)[0] == a[0] && (a + b)[1..] == a[1..] + b;
      StringsAppend(a[1..], b);
    } else {
      assert a + b == b;
    }
  }

  /** The text of a list of siblings: the text of each sibling, concatenated. */
  function TextOfAll(cs: seq<Node>): string
    decreases cs, 0
  {
    if cs == [] then "" else Text(cs[0]) + TextOfAll(cs[1..])
  }

  /** The text runs below a list of siblings are the text of each sibling, in order. */
  lemma {:induction false} StringsOfAll(cs: seq<Node>)
    ensures Strings(DescendantsOfAll(cs)) == TextOfAll(cs)
    decreases cs, 1
  {
    if cs != [] {
      var c := cs[0];
      StringsAppend([c] + Descendants(c), DescendantsOfAll(cs[1..]));
      StringsAppend([c], Descendants(c));
      StringsOfAll(cs[1..]);
      match c
      case TextNode(_) =>
      case Elem(_, _, gs) => StringsOfAll(gs);
    }
  }

  /** `" ".join(classes)`: the `class` attribute value as one string. */
  function Join(classes: seq<string>): string
  {
    if classes == [] then ""
    else if |classes| == 1 then classes[0]
    else classes[0] + " " + Join(classes[1..])
  }

  /**
   * How BeautifulSoup matches the multi-valued `class` attribute against the
   * values given as `class_`: some single token equals a wanted value, or the
   * whole attribute value, tokens joined by single spaces, does.
   */
  predicate ClassMatch(classes: seq<string>, want: seq<string>)
    ensures ClassMatch(classes, want) ==> want != []
    ensures |classes| == 1 ==> (ClassMatch(classes, want) <==> classes[0] in want)
  {
    (exists c :: c in classes && c in want) || Join(classes) in want
  }

  /** A search filter: the tag name and the `class_` values (a string is a one-element list). */
  datatype Strainer = Strainer(name: string, classes: seq<string>)

  predicate Matches(st: Strainer, n: Node)
  {
    n.Elem? && n.tag == st.name && ClassMatch(n.classes, st.classes)
  }

  /** The nodes of `ns` that match `st`, in their order in `ns`. */
  function Filter(ns: seq<Node>, st: Strainer): (r: seq<Node>)
    ensures forall m :: m in r <==> m in ns && Matches(st, m)
  {
    if ns == [] then []
    else if Matches(st, ns[0]) then [ns[0]] + Filter(ns[1..], st)
    else Filter(ns[1..], st)
  }

  /** The first node kept by Filter is the first node of `ns` that matches. */
  lemma {:induction false} FilterFirst(ns: seq<Node>, st: Strainer)
    requires Filter(ns, st) != []
    ensures exists i :: 0 <= i < |ns| && ns[i] == Filter(ns, st)[0] && Matches(st, ns[i])
                        && forall j :: 0 <= j < i ==> !Matches(st, ns[j])
  {
    if !Matches(st, ns[0]) {
      FilterFirst(ns[1..], st);
      var i :| 0 <= i < |ns| - 1 && ns[1..][i] == Filter(ns, st)[0] && Matches(st, ns[1..][i])
               && forall j :: 0 <= j < i ==> !Matches(st, ns[1..][j]);
      assert forall j :: 1 <= j < i + 1 ==> ns[j] == ns[1..][j - 1];
      assert ns[i + 1] == Filter(ns, st)[0];
    }
  }

  /** Filtering keeps document order: it distributes over concatenation. */
  lemma {:induction false} FilterAppend(a: seq<Node>, b: seq<Node>, st: Strainer)
    ensures Filter(a + b, st) == Filter(a, st) + Filter(b, st)
  {
    if a != [] {
      assert (a + b)[0] == a[0] && (a + b)[1..] == a[1..] + b;
      FilterAppend(a[1..], b, st);
    } else {
      assert a + b == b;
    }
  }

  /** `n.find_all(name, class_=...)`: every matching descendant, in document order. */
  function FindAll(n: Node, st: Strainer): (r: seq<Node>)
    ensures forall m :: m in r <==> m in Descendants(n) && Matches(st, m)
  {
    Filter(Descendants(n), st)
  }

  /** Some descendant of `n` matches `st`. */
  predicate HasMatch(n: Node, st: Strainer)
  {
    exists m :: m in Descendants(n) && Matches(st, m)
  }

  /** `m` is the first descendant of `n`, in document order, that matches `st`. */
  predicate IsFirstMatch(n: Node, st: Strainer, m: Node)
  {
    var ds := Descendants(n);
    exists i :: 0 <= i < |ds| && ds[i] == m && Matches(st, m)
                && forall j :: 0 <= j < i ==> !Matches(st, ds[j])
  }

  /** A search has at most one first match. */
  lemma FirstMatchUnique(n: Node, st: Strainer, m1: Node, m2: Node)
    requires IsFirstMatch(n, st, m1) && IsFirstMatch(n, st, m2)
    ensures m1 == m2
  {
    var ds := Descendants(n);
    var i1 :| 0 <= i1 < |ds| && ds[i1] == m1 && Matches(st, m1)
              && forall j :: 0 <= j < i1 ==> !Matches(st, ds[j]);
    var i2 :| 0 <= i2 < |ds| && ds[i2] == m2 && Matches(st, m2)
              && forall j :: 0 <= j < i2 ==> !Matches(st, ds[j]);
    assert i1 == i2;
  }

  /** `n.find(name, class_=...)`: the first matching descendant, or None. */
  function Find(n: Node, st: Strainer): (r: Option<Node>)
    ensures r.Some? <==> HasMatch(n, st)
    ensures r.Some? ==> r.value in Descendants(n) && Matches(st, r.value)
  {
    var all := FindAll(n, st);
    if all == [] then None else assert all[0] in all; Some(all[0])
  }

  /** `find` returns the first match of the search, and whatever is that first match. */
  lemma FindGivesFirstMatch(n: Node, st: Strainer)
    ensures Find(n, st).Some? ==> IsFirstMatch(n, st, Find(n, st).value)
    ensures forall m :: IsFirstMatch(n, st, m) ==> Find(n, st) == Some(m)
  {
    if Find(n, st).Some? {
      FilterFirst(Descendants(n), st);
    }
    forall m | IsFirstMatch(n, st, m) ensures Find(n, st) == Some(m) {
      assert HasMatch(n, st);
      FilterFirst(Descendants(n), st);
      FirstMatchUnique(n, st, m, Find(n, st).value);
    }
  }

  /** A class token has no white space in it. */
  predicate NoSpaceIn(c: string)
  {
    forall k :: 0 <= k < |c| ==> !IsSpace(c[k])
  }

  /**
   * The tokens BeautifulSoup produces by splitting a `class` attribute on
   * white space: none is empty and none contains white space.
   */
  predicate WellFormedClasses(classes: seq<string>)
  {
    forall c :: c in classes ==> c != "" && NoSpaceIn(c)
  }

  /** Two or more tokens joined always contain a space. */
  lemma {:induction false} JoinOfSeveral(classes: seq<string>)
    requires |classes| >= 2
    ensures ' ' in Join(classes)
  {
    var s := classes[0] + " " + Join(classes[1..]);
    assert s[|classes[0]|] == ' ';
  }

  /**
   * For well-formed tokens and wanted values with no space in them (none
   * empty), matching reduces to: one of the element's tokens is wanted.
   */
  lemma AnyTokenMatch(classes: seq<string>, want: seq<string>)
    requires WellFormedClasses(classes)
    requires forall w :: w in want ==> w != "" && ' ' !in w
    ensures ClassMatch(classes, want) <==> exists c :: c in classes && c in want
  {
    if Join(classes) in want {
      if |classes| >= 2 {
        JoinOfSeveral(classes);
      } else {
        assert classes != [];
        assert Join(classes) == classes[0];
      }
    }
  }

  /**
   * For well-formed tokens and a wanted value that contains a space,
   * matching reduces to: the whole attribute value equals it.
   */
  lemma WholeValueMatch(classes: seq<string>, lit: string)
    requires WellFormedClasses(classes)
    requires ' ' in lit
    ensures ClassMatch(classes, [lit]) <==> Join(classes) == lit
  {
  }
}
