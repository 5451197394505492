/**
 * A stand-in for the IDE's class syntax tree: a class is an ordered list of
 * member constructs, and the factory/insertion calls the writer makes
 * (`add`, `addBefore`, `findInnerClassByName`) act on that list.
 */
module Psi {
  import opened Model

  /** The constructs the writer creates from text and inserts into a class. */
  datatype Member =
    | Field(text: string)
    | Method(text: string)
    | Comment(text: string)
    | Keyword(text: string)
    | InnerClass(name: string, members: seq<Member>)

  predicate IsInnerClassNamed(m: Member, name: string)
  {
    m.InnerClass? && m.name == name
  }

  /** The position of the first inner class called `name`, if there is one. */
  function FindInnerClassByName(ms: seq<Member>, name: string): (r: Option<nat>)
    ensures r.Some? ==> r.value < |ms| && IsInnerClassNamed(ms[r.value], name)
    ensures r.Some? ==> forall j :: 0 <= j < r.value ==> !IsInnerClassNamed(ms[j], name)
    ensures r.None? ==> forall j :: 0 <= j < |ms| ==> !IsInnerClassNamed(ms[j], name)
  {
    if ms == [] then None
    else if IsInnerClassNamed(ms[0], name) then Some(0)
    else match FindInnerClassByName(ms[1..], name)
      case None => None
      case Some(k) => Some(k + 1)
  }

  /** The first match in `a + b` is the first match in `a`, or else the first in `b` shifted by `|a|`. */
  lemma {:induction false} FindInAppend(a: seq<Member>, b: seq<Member>, name: string)
    ensures FindInnerClassByName(a + b, name) ==
      match FindInnerClassByName(a, name)
      case Some(k) => Some(k)
      case None => match FindInnerClassByName(b, name)
        case Some(k) => Some(|a| + k)
        case None => None
  {
    var r := FindInnerClassByName(a + b, name);
    match FindInnerClassByName(a, name)
    case Some(k) =>
      assert (a + b)[k] == a[k];
      assert forall j :: 0 <= j < k ==> (a + b)[j] == a[j];
      FindIsFirst(a + b, name, k);
    case None =>
      assert forall j :: 0 <= j < |a| ==> (a + b)[j] == a[j];
      match FindInnerClassByName(b, name)
      case Some(k) =>
        assert (a + b)[|a| + k] == b[k];
        assert forall j :: |a| <= j < |a| + k ==> (a + b)[j] == b[j - |a|];
        FindIsFirst(a + b, name, |a| + k);
      case None =>
        assert forall j :: |a| <= j < |a| + |b| ==> (a + b)[j] == b[j - |a|];
  }

  /** A position holding a match with no match before it is what the search returns. */
  lemma FindIsFirst(ms: seq<Member>, name: string, k: nat)
    requires k < |ms| && IsInnerClassNamed(ms[k], name)
    requires forall j :: 0 <= j < k ==> !IsInnerClassNamed(ms[j], name)
    ensures FindInnerClassByName(ms, name) == Some(k)
  {
  }

  /** `block` placed immediately before the first inner class called `name`. */
  function InsertBeforeInnerClass(ms: seq<Member>, name: string, block: seq<Member>): seq<Member>
  {
    match FindInnerClassByName(ms, name)
    case Some(k) => ms[..k] + block + ms[k..]
    case None => ms
  }

  /**
   * After a class is added last, inserting before the first inner class of its
   * name lands just before it, unless an older inner class has that name.
   */
  lemma InsertBeforeAdded(before: seq<Member>, holder: Member, block: seq<Member>)
    requires holder.InnerClass?
    ensures InsertBeforeInnerClass(before + [holder], holder.name, block) ==
      match FindInnerClassByName(before, holder.name)
      case None => before + block + [holder]
      case Some(j) => before[..j] + block + before[j..] + [holder]
  {
    var ms := before + [holder];
    var name := holder.name;
    assert forall j :: 0 <= j < |before| ==> ms[j] == before[j];
    match FindInnerClassByName(before, name)
    case None =>
      FindIsFirst(ms, name, |before|);
      assert ms[..|before|] == before;
      assert ms[|before|..] == [holder];
    case Some(j) =>
      FindIsFirst(ms, name, j);
      assert ms[..j] == before[..j];
      assert ms[j..] == before[j..] + [holder];
      assert before[..j] + block + (before[j..] + [holder]) == before[..j] + block + before[j..] + [holder];
  }

  /** A class added last can always be found by its name. */
  lemma FindAddedLast(before: seq<Member>, holder: Member)
    requires holder.InnerClass?
    ensures FindInnerClassByName(before + [holder], holder.name).Some?
  {
    assert IsInnerClassNamed((before + [holder])[|before|], holder.name);
  }

  /** Inserting a non-matching member before the first match moves that match one place on. */
  lemma FindAfterInsert(ms: seq<Member>, name: string, a: Member)
    requires FindInnerClassByName(ms, name).Some?
    requires !IsInnerClassNamed(a, name)
    ensures var k := FindInnerClassByName(ms, name).value;
      FindInnerClassByName(ms[..k] + [a] + ms[k..], name) == Some(k + 1)
  {
    var k := FindInnerClassByName(ms, name).value;
    var m1 := ms[..k] + [a] + ms[k..];
    SliceOfInsert(ms, k, a);
    forall j | 0 <= j < k + 1
      ensures !IsInnerClassNamed(m1[j], name)
    {
      if j < k { assert m1[j] == ms[j]; }
    }
    FindIsFirst(m1, name, k + 1);
  }

  /** Inserting `a` at `k` and then `b` at `k + 1` inserts `[a, b]` at `k`. */
  lemma InsertTwice<T>(xs: seq<T>, k: nat, a: T, b: T)
    requires k <= |xs|
    ensures var ys := xs[..k] + [a] + xs[k..];
      ys[..k + 1] + [b] + ys[k + 1..] == xs[..k] + [a, b] + xs[k..]
  {
    SliceOfInsert(xs, k, a);
    assert xs[..k] + [a] + [b] == xs[..k] + [a, b];
  }

  lemma SliceOfInsert<T>(xs: seq<T>, k: nat, a: T)
    requires k <= |xs|
    ensures var ys := xs[..k] + [a] + xs[k..];
      |ys| == |xs| + 1 && ys[k] == a && (k < |xs| ==> ys[k + 1] == xs[k]) && ys[..k + 1] == xs[..k] + [a] && ys[k + 1..] == xs[k..]
      && (forall j :: 0 <= j < k ==> ys[j] == xs[j])
  {
  }

  /** A class whose member list the writer extends in place. */
  class PsiClassModel {
    const name: string
    var members: seq<Member>
    /** Whether `findMethodsByName("findViewById", true)` finds anything (an IDE query). */
    const hasFindViewById: bool

    /** A class as the factory builds it from text and the writer then names it. */
    constructor (name: string, members: seq<Member>, hasFindViewById: bool)
      ensures this.name == name && this.members == members
      ensures this.hasFindViewById == hasFindViewById
    {
      this.name := name;
      this.members := members;
      this.hasFindViewById := hasFindViewById;
    }

    /** `add`: the member goes last. */
    method Add(m: Member)
      modifies this
      ensures members == old(members) + [m]
    {
      members := members + [m];
    }

    /** `addBefore`: the member goes immediately before the one at `anchor`. */
    method AddBefore(m: Member, anchor: nat)
      requires anchor < |members|
      modifies this
      ensures members == old(members)[..anchor] + [m] + old(members)[anchor..]
    {
      members := members[..anchor] + [m] + members[anchor..];
    }
  }
}
