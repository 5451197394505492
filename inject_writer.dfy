/**
 * The code emission of the injection writer: the text of each field
 * declaration, of each view lookup statement and of the lookup method, and
 * the order in which the writer inserts these constructs into the target
 * class, either directly or inside a nested view-holder class.
 *
 * The functions at the top define the expected text; the methods of
 * `InjectWriter` build it the way the writer does, with the type rule
 * written out separately in each loop, and are proved to produce it.
 */
module Writer {
  import opened Strings
  import opened Model
  import opened Psi

  const WIDGET_PACKAGE := "android.widget."
  const ROOT_PARAMETER := "android.view.View root"
  const FIND_VIEW_BY_ID := "findViewById("
  const ANDROID_ID_PREFIX := "android.R.id."
  const APP_ID_PREFIX := "R.id."

  /** The class named in the field declaration and in the cast of the lookup. */
  function ResolveType(e: Element, paths: map<string, string>): string
  {
    if HasCustomClass(e) then e.nameFull.value
    else if e.name in paths then paths[e.name]
    else WIDGET_PACKAGE + e.name
  }

  /** The type rule as both loops apply it: appending the type to the text built so far. */
  function AppendType(acc: string, e: Element, paths: map<string, string>): string
  {
    if e.nameFull.Some? && |e.nameFull.value| > 0 then acc + e.nameFull.value
    else if e.name in paths then acc + paths[e.name]
    else acc + WIDGET_PACKAGE + e.name
  }

  lemma AppendTypeResolves(acc: string, e: Element, paths: map<string, string>)
    ensures AppendType(acc, e, paths) == acc + ResolveType(e, paths)
  {
    if !HasCustomClass(e) && e.name !in paths {
      AppendAssoc(acc, WIDGET_PACKAGE, e.name);
    }
  }

  function FieldText(e: Element, paths: map<string, string>): string
  {
    "private " + ResolveType(e, paths) + " " + e.fieldName + ";"
  }

  /** The field declarations, one per element, in element order. */
  function FieldTexts(es: seq<Element>, paths: map<string, string>): (r: seq<string>)
    ensures |r| == |es|
  {
    if es == [] then [] else FieldTexts(es[..|es| - 1], paths) + [FieldText(es[|es| - 1], paths)]
  }

  /** Declaration `k` is that of element `k`. */
  lemma {:induction false} FieldTextsAt(es: seq<Element>, paths: map<string, string>, k: nat)
    requires k < |es|
    ensures FieldTexts(es, paths)[k] == FieldText(es[k], paths)
  {
    if k < |es| - 1 {
      FieldTextsAt(es[..|es| - 1], paths, k);
    }
  }

  /** The resource class of the id: the framework's for ids in the `android` namespace, the app's otherwise. */
  function IdPrefix(isAndroidNS: bool): (r: string)
    ensures r == ANDROID_ID_PREFIX <==> isAndroidNS
    ensures r == APP_ID_PREFIX <==> !isAndroidNS
  {
    if isAndroidNS then ANDROID_ID_PREFIX else APP_ID_PREFIX
  }

  function LookupStatement(e: Element, paths: map<string, string>, hasParams: bool): string
  {
    e.fieldName + "=(" + ResolveType(e, paths) + ")" + (if hasParams then "root." else "")
      + FIND_VIEW_BY_ID + IdPrefix(e.isAndroidNS) + e.id + ");" + "\n"
  }

  /** One lookup statement as the loop appends it to the text built so far. */
  function AppendStatement(acc: string, e: Element, paths: map<string, string>, hasParams: bool): string
  {
    var withType := AppendType(acc + e.fieldName + "=(", e, paths) + ")";
    var withBase := if hasParams then withType + "root" + "." else withType;
    withBase + FIND_VIEW_BY_ID + IdPrefix(e.isAndroidNS) + e.id + ");" + "\n"
  }

  /** Appending a statement piece by piece adds exactly its lookup statement. */
  lemma AppendStatementIsLookup(acc: string, e: Element, paths: map<string, string>, hasParams: bool)
    ensures AppendStatement(acc, e, paths, hasParams) == acc + LookupStatement(e, paths, hasParams)
  {
    var t := ResolveType(e, paths);
    var base := if hasParams then "root." else "";
    AppendTypeResolves(acc + e.fieldName + "=(", e, paths);
    var st := e.fieldName + "=(" + t + ")";
    AppendAssoc(acc, e.fieldName, "=(");
    AppendAssoc(acc, e.fieldName + "=(", t);
    AppendAssoc(acc, e.fieldName + "=(" + t, ")");
    var withType := acc + st;
    if hasParams {
      AppendAssoc(withType, "root", ".");
      assert "root" + "." == "root.";
    } else {
      assert withType + "" == withType;
    }
    AppendAssoc(acc, st, base);
    AppendAssoc(acc, st + base, FIND_VIEW_BY_ID);
    AppendAssoc(acc, st + base + FIND_VIEW_BY_ID, IdPrefix(e.isAndroidNS));
    AppendAssoc(acc, st + base + FIND_VIEW_BY_ID + IdPrefix(e.isAndroidNS), e.id);
    AppendAssoc(acc, st + base + FIND_VIEW_BY_ID + IdPrefix(e.isAndroidNS) + e.id, ");");
    AppendAssoc(acc, st + base + FIND_VIEW_BY_ID + IdPrefix(e.isAndroidNS) + e.id + ");", "\n");
  }

  /** The lookup method's body: one statement per element, in element order. */
  function InitViewsText(es: seq<Element>, paths: map<string, string>, hasParams: bool): string
  {
    if es == [] then []
    else InitViewsText(es[..|es| - 1], paths, hasParams) + LookupStatement(es[|es| - 1], paths, hasParams)
  }

  /** The parameter list of the method header; a null argument array gives none. */
  function ParameterList(args: Option<seq<string>>): (r: string)
    ensures (args.None? || args.value == []) ==> r == []
    ensures args.Some? && |args.value| == 1 ==> r == args.value[0]
  {
    match args
    case None => []
    case Some(a) => Join(a, ',')
  }

  function MethodText(name: string, args: Option<seq<string>>, body: string): string
  {
    "private void " + name + "(" + ParameterList(args) + ")" + "{" + body + "}"
  }

  function FieldMembers(texts: seq<string>): (r: seq<Member>)
    ensures |r| == |texts|
    ensures forall k :: 0 <= k < |texts| ==> r[k] == Field(texts[k])
  {
    if texts == [] then [] else FieldMembers(texts[..|texts| - 1]) + [Field(texts[|texts| - 1])]
  }

  lemma FieldMembersSnoc(texts: seq<string>, i: nat)
    requires i < |texts|
    ensures FieldMembers(texts[..i + 1]) == FieldMembers(texts[..i]) + [Field(texts[i])]
  {
    assert texts[..i + 1][..i] == texts[..i];
  }

  /** The lookup method the one-argument overload builds: a `root` view parameter, `root.` lookups. */
  function RootMethodText(name: string, es: seq<Element>, paths: map<string, string>): string
  {
    "private void " + name + "(" + ROOT_PARAMETER + ")" + "{" + InitViewsText(es, paths, true) + "}"
  }

  /** The lookup method of the direct mode: without parameters when the class can look views up itself. */
  function DirectMethodText(name: string, es: seq<Element>, paths: map<string, string>, hasFindViewById: bool): string
  {
    if hasFindViewById then MethodText(name, None, InitViewsText(es, paths, false))
    else RootMethodText(name, es, paths)
  }

  /** The members of the target class after the direct mode has run. */
  function DirectModeMembers(before: seq<Member>, es: seq<Element>, paths: map<string, string>,
                              methodName: string, hasFindViewById: bool): seq<Member>
  {
    before + FieldMembers(FieldTexts(es, paths)) + [Method(DirectMethodText(methodName, es, paths, hasFindViewById))]
  }

  function HolderConstructorText(holderName: string, methodName: string): string
  {
    holderName + "(android.view.View view) {" + methodName + "(view);" + "}"
  }

  // The lines of the comment put above the view holder, around the layout file name.
  const COMMENT_OPEN := "/**\n"
  const COMMENT_INTRO := " * This class contains all butterknife-injected Views & Layouts from layout file '"
  const COMMENT_INTRO_END := "'\n"
  const COMMENT_PURPOSE := "* for easy to all layout elements.\n"
  const COMMENT_BLANK := " *\n"
  const COMMENT_AUTHOR := " * @author\tAndroid Butter Zelezny, plugin for IntelliJ IDEA/Android Studio by Inmite (www.inmite.eu)\n"
  const COMMENT_CLOSE := "*/"

  function HolderCommentText(layoutFileName: string): string
  {
    COMMENT_OPEN + COMMENT_INTRO + layoutFileName + COMMENT_INTRO_END
      + COMMENT_PURPOSE + COMMENT_BLANK + COMMENT_AUTHOR + COMMENT_CLOSE
  }

  /** The comment names its layout file: different names give different comments. */
  lemma HolderCommentInjective(a: string, b: string)
    requires HolderCommentText(a) == HolderCommentText(b)
    ensures a == b
  {
    var head := COMMENT_OPEN + COMMENT_INTRO;
    var tail := COMMENT_INTRO_END + COMMENT_PURPOSE + COMMENT_BLANK + COMMENT_AUTHOR + COMMENT_CLOSE;
    assert HolderCommentText(a) == head + a + tail;
    assert HolderCommentText(b) == head + b + tail;
    MiddleDetermined(head, a, b, tail);
  }

  lemma MiddleDetermined(h: string, a: string, b: string, t: string)
    requires h + a + t == h + b + t
    ensures a == b
  {
    assert |a| == |b|;
    assert a == (h + a + t)[|h|..|h| + |a|];
    assert b == (h + b + t)[|h|..|h| + |b|];
  }

  /** The view holder: its constructor, then one field per element, then the `root` lookup method. */
  function HolderClass(holderName: string, methodName: string, es: seq<Element>, paths: map<string, string>): Member
  {
    InnerClass(holderName,
      [Method(HolderConstructorText(holderName, methodName))]
        + FieldMembers(FieldTexts(es, paths))
        + [Method(RootMethodText(methodName, es, paths))])
  }

  /**
   * The members of the target class after the holder mode has run: the holder
   * goes last, then the comment and the `static` keyword go before the first
   * inner class of the holder's name the class has.
   */
  function HolderModeMembers(before: seq<Member>, es: seq<Element>, paths: map<string, string>,
                              layoutFileName: string, holderName: string, methodName: string): seq<Member>
  {
    InsertBeforeInnerClass(before + [HolderClass(holderName, methodName, es, paths)], holderName,
                           [Comment(HolderCommentText(layoutFileName)), Keyword("static")])
  }

  /** The members of the target class after `run`, by mode. */
  function RunMembers(before: seq<Member>, es: seq<Element>, paths: map<string, string>,
                      layoutFileName: string, createHolder: bool, holderName: string,
                      methodName: string, hasFindViewById: bool): seq<Member>
  {
    if createHolder then HolderModeMembers(before, es, paths, layoutFileName, holderName, methodName)
    else DirectModeMembers(before, es, paths, methodName, hasFindViewById)
  }

  // ---------------------------------------------------------------------------
  // Properties of the emitted text

  /** The body of the lookup method of `a + b` is that of `a` followed by that of `b`. */
  lemma {:induction false} InitViewsAppend(a: seq<Element>, b: seq<Element>, paths: map<string, string>, hasParams: bool)
    ensures InitViewsText(a + b, paths, hasParams) == InitViewsText(a, paths, hasParams) + InitViewsText(b, paths, hasParams)
  {
    if b == [] {
      assert a + b == a;
      assert InitViewsText(a, paths, hasParams) + [] == InitViewsText(a, paths, hasParams);
    } else {
      var b' := b[..|b| - 1];
      assert (a + b)[..|a + b| - 1] == a + b';
      assert (a + b)[|a + b| - 1] == b[|b| - 1];
      InitViewsAppend(a, b', paths, hasParams);
      AppendAssoc(InitViewsText(a, paths, hasParams), InitViewsText(b', paths, hasParams),
                  LookupStatement(b[|b| - 1], paths, hasParams));
    }
  }

  /**
   * The field declaration of element `k` and the cast that starts its lookup
   * statement name the same class, the one the type rule chooses.
   */
  lemma FieldAndCastAgree(es: seq<Element>, paths: map<string, string>, hasParams: bool, k: nat)
    requires k < |es|
    ensures FieldTexts(es, paths)[k] == "private " + ResolveType(es[k], paths) + " " + es[k].fieldName + ";"
    ensures var cast := es[k].fieldName + "=(" + ResolveType(es[k], paths) + ")";
      |cast| <= |LookupStatement(es[k], paths, hasParams)| && LookupStatement(es[k], paths, hasParams)[..|cast|] == cast
  {
    FieldTextsAt(es, paths, k);
    var e := es[k];
    PrefixOfAppend(e.fieldName + "=(" + ResolveType(e, paths) + ")",
                   [(if hasParams then "root." else ""), FIND_VIEW_BY_ID, IdPrefix(e.isAndroidNS), e.id, ");", "\n"]);
  }

  /** A string followed by six more parts starts with that string. */
  lemma PrefixOfAppend(c: string, parts: seq<string>)
    requires |parts| == 6
    ensures var s := c + parts[0] + parts[1] + parts[2] + parts[3] + parts[4] + parts[5];
      |c| <= |s| && s[..|c|] == c
  {
    var s := c + parts[0] + parts[1] + parts[2] + parts[3] + parts[4] + parts[5];
    assert s == c + (parts[0] + parts[1] + parts[2] + parts[3] + parts[4] + parts[5]);
  }

  /** The lookup method's body splits around the statement of element `k`. */
  lemma InitViewsAt(es: seq<Element>, paths: map<string, string>, hasParams: bool, k: nat)
    requires k < |es|
    ensures InitViewsText(es, paths, hasParams) ==
      InitViewsText(es[..k], paths, hasParams) + LookupStatement(es[k], paths, hasParams) + InitViewsText(es[k + 1..], paths, hasParams)
  {
    assert es == es[..k] + [es[k]] + es[k + 1..];
    InitViewsAppend(es[..k] + [es[k]], es[k + 1..], paths, hasParams);
    InitViewsAppend(es[..k], [es[k]], paths, hasParams);
    assert InitViewsText([es[k]], paths, hasParams) == LookupStatement(es[k], paths, hasParams) by {
      assert [es[k]][..0] == [];
    }
  }

  /** The writer does not look at `used`: lists that differ only in selection give the same text. */
  lemma WriterIgnoresSelection(es: seq<Element>, es2: seq<Element>, paths: map<string, string>, hasParams: bool)
    requires |es| == |es2|
    requires forall k :: 0 <= k < |es| ==> SameButSelection(es[k], es2[k])
    ensures FieldTexts(es, paths) == FieldTexts(es2, paths)
    ensures InitViewsText(es, paths, hasParams) == InitViewsText(es2, paths, hasParams)
  {
    forall k | 0 <= k < |es|
      ensures FieldTexts(es, paths)[k] == FieldTexts(es2, paths)[k]
    {
      FieldTextsAt(es, paths, k);
      FieldTextsAt(es2, paths, k);
      TextIgnoresSelection(es[k], es2[k], paths, hasParams);
    }
    InitViewsIgnoreSelection(es, es2, paths, hasParams);
  }

  lemma {:induction false} InitViewsIgnoreSelection(es: seq<Element>, es2: seq<Element>, paths: map<string, string>, hasParams: bool)
    requires |es| == |es2|
    requires forall k :: 0 <= k < |es| ==> SameButSelection(es[k], es2[k])
    ensures InitViewsText(es, paths, hasParams) == InitViewsText(es2, paths, hasParams)
  {
    if es != [] {
      var n := |es| - 1;
      assert forall k :: 0 <= k < n ==> es[..n][k] == es[k] && es2[..n][k] == es2[k];
      InitViewsIgnoreSelection(es[..n], es2[..n], paths, hasParams);
      TextIgnoresSelection(es[n], es2[n], paths, hasParams);
    }
  }

  lemma TextIgnoresSelection(a: Element, b: Element, paths: map<string, string>, hasParams: bool)
    requires SameButSelection(a, b)
    ensures FieldText(a, paths) == FieldText(b, paths)
    ensures LookupStatement(a, paths, hasParams) == LookupStatement(b, paths, hasParams)
  {
    assert a == b.(used := a.used);
  }

  /** The name a field declaration `private <type> <name>;` declares: the text after its last space. */
  function DeclaredName(fieldText: string): string
  {
    if fieldText == [] then [] else AfterLast(fieldText[..|fieldText| - 1], ' ')
  }

  /** The field name can be read back from the declaration when it contains no space. */
  lemma FieldNameRecoverable(e: Element, paths: map<string, string>)
    requires ' ' !in e.fieldName
    ensures DeclaredName(FieldText(e, paths)) == e.fieldName
  {
    var t := FieldText(e, paths);
    assert t[..|t| - 1] == ("private " + ResolveType(e, paths)) + [' '] + e.fieldName;
    AfterLastOfAppend("private " + ResolveType(e, paths), ' ', e.fieldName);
  }

  /** Distinct space-free field names give distinct field declarations. */
  lemma DistinctFieldNamesDistinctFields(es: seq<Element>, paths: map<string, string>)
    requires forall k :: 0 <= k < |es| ==> ' ' !in es[k].fieldName
    requires forall i, j :: 0 <= i < j < |es| ==> es[i].fieldName != es[j].fieldName
    ensures forall i, j :: 0 <= i < j < |es| ==> FieldTexts(es, paths)[i] != FieldTexts(es, paths)[j]
  {
    forall i, j | 0 <= i < j < |es|
      ensures FieldTexts(es, paths)[i] != FieldTexts(es, paths)[j]
    {
      FieldTextsAt(es, paths, i);
      FieldTextsAt(es, paths, j);
      FieldNameRecoverable(es[i], paths);
      FieldNameRecoverable(es[j], paths);
    }
  }

  /** A non-empty comma-free argument list can be split back into the arguments. */
  lemma ParameterListRoundTrip(args: seq<string>)
    requires |args| >= 1
    requires forall k :: 0 <= k < |args| ==> ',' !in args[k]
    ensures Pieces(ParameterList(Some(args)), ',') == args
  {
    PiecesOfJoin(args, ',');
  }

  /**
   * Direct mode keeps the class's members and adds, after them, one field per
   * element in element order and then a single method; nothing else.
   */
  lemma DirectModeShape(before: seq<Member>, es: seq<Element>, paths: map<string, string>,
                        methodName: string, hasFindViewById: bool)
    ensures var r := DirectModeMembers(before, es, paths, methodName, hasFindViewById);
      && |r| == |before| + |es| + 1
      && r[..|before|] == before
      && (forall k :: 0 <= k < |es| ==> r[|before| + k] == Field(FieldText(es[k], paths)))
      && r[|r| - 1].Method?
      && (forall k :: |before| <= k < |r| ==> r[k].Field? || r[k].Method?)
  {
    AppendedMembersShape(before, FieldTexts(es, paths), DirectMethodText(methodName, es, paths, hasFindViewById));
    forall k | 0 <= k < |es| ensures FieldTexts(es, paths)[k] == FieldText(es[k], paths) {
      FieldTextsAt(es, paths, k);
    }
  }

  lemma AppendedMembersShape(before: seq<Member>, texts: seq<string>, m: string)
    ensures var r := before + FieldMembers(texts) + [Method(m)];
      && |r| == |before| + |texts| + 1
      && r[..|before|] == before
      && (forall k :: 0 <= k < |texts| ==> r[|before| + k] == Field(texts[k]))
      && r[|r| - 1].Method?
      && (forall k :: |before| <= k < |r| ==> r[k].Field? || r[k].Method?)
  {
    var r := before + FieldMembers(texts) + [Method(m)];
    assert r[..|before|] == before;
    forall k | |before| <= k < |r| ensures r[k].Field? || r[k].Method? {
      if k < |r| - 1 {
        assert r[k] == FieldMembers(texts)[k - |before|];
      }
    }
  }

  /**
   * Holder mode adds exactly a comment, the `static` keyword and the holder
   * class: directly after the old members when the class had no inner
   * class of that name, otherwise the comment and keyword before that one.
   */
  lemma HolderModeShape(before: seq<Member>, es: seq<Element>, paths: map<string, string>,
                        layoutFileName: string, holderName: string, methodName: string)
    ensures var r := HolderModeMembers(before, es, paths, layoutFileName, holderName, methodName);
      var block := [Comment(HolderCommentText(layoutFileName)), Keyword("static")];
      var holder := HolderClass(holderName, methodName, es, paths);
      match FindInnerClassByName(before, holderName)
      case None => r == before + block + [holder]
      case Some(j) => r == before[..j] + block + before[j..] + [holder]
  {
    InsertBeforeAdded(before, HolderClass(holderName, methodName, es, paths),
                      [Comment(HolderCommentText(layoutFileName)), Keyword("static")]);
  }

  /**
   * The two modes are exclusive: among the members `run` adds, only holder
   * mode adds an inner class and only direct mode adds fields or methods.
   * Every old member is kept; direct mode, and holder mode on a class with
   * no inner class of the holder's name yet, keep them as a prefix.
   */
  lemma ModesExclusive(before: seq<Member>, es: seq<Element>, paths: map<string, string>,
                       layoutFileName: string, createHolder: bool, holderName: string,
                       methodName: string, hasFindViewById: bool)
    ensures var r := RunMembers(before, es, paths, layoutFileName, createHolder, holderName, methodName, hasFindViewById);
      var added := multiset(r) - multiset(before);
      && multiset(before) <= multiset(r)
      && ((!createHolder || FindInnerClassByName(before, holderName).None?) ==> |r| >= |before| && r[..|before|] == before)
      && (createHolder <==> exists m :: m in added && m.InnerClass?)
      && (!createHolder <==> exists m :: m in added && (m.Field? || m.Method?))
  {
    if createHolder {
      HolderModeAdds(before, es, paths, layoutFileName, holderName, methodName);
    } else {
      DirectModeAdds(before, es, paths, methodName, hasFindViewById);
    }
  }

  /** Holder mode adds an inner class and no field or method, and keeps the old members. */
  lemma HolderModeAdds(before: seq<Member>, es: seq<Element>, paths: map<string, string>,
                       layoutFileName: string, holderName: string, methodName: string)
    ensures var r := HolderModeMembers(before, es, paths, layoutFileName, holderName, methodName);
      var added := multiset(r) - multiset(before);
      && multiset(before) <= multiset(r)
      && (FindInnerClassByName(before, holderName).None? ==> |r| >= |before| && r[..|before|] == before)
      && (exists m :: m in added && m.InnerClass?)
      && !(exists m :: m in added && (m.Field? || m.Method?))
  {
    var holder := HolderClass(holderName, methodName, es, paths);
    var block := [Comment(HolderCommentText(layoutFileName)), Keyword("static")];
    HolderModeShape(before, es, paths, layoutFileName, holderName, methodName);
    match FindInnerClassByName(before, holderName)
    case None =>
      HolderAppendedShape(before, block, holder);
      HolderAddedKinds(before, before + block + [holder], block, holder);
    case Some(j) =>
      HolderInsertedKeeps(before, j, block, holder);
      HolderAddedKinds(before, before[..j] + block + before[j..] + [holder], block, holder);
  }

  /** Direct mode adds a method and no inner class, after the old members. */
  lemma DirectModeAdds(before: seq<Member>, es: seq<Element>, paths: map<string, string>,
                       methodName: string, hasFindViewById: bool)
    ensures var r := DirectModeMembers(before, es, paths, methodName, hasFindViewById);
      var added := multiset(r) - multiset(before);
      && multiset(before) <= multiset(r)
      && |r| >= |before| && r[..|before|] == before
      && (exists m :: m in added && (m.Field? || m.Method?))
      && !(exists m :: m in added && m.InnerClass?)
  {
    var texts := FieldTexts(es, paths);
    var tail := FieldMembers(texts) + [Method(DirectMethodText(methodName, es, paths, hasFindViewById))];
    assert DirectModeMembers(before, es, paths, methodName, hasFindViewById) == before + tail;
    forall k | 0 <= k < |tail| ensures !tail[k].InnerClass? {
      if k < |texts| {
        assert tail[k] == FieldMembers(texts)[k];
      }
    }
    AppendedAddsNoClass(before, tail);
  }

  /** Inserting a block before an old member and adding a class at the end adds exactly the block and the class. */
  lemma HolderInsertedKeeps(before: seq<Member>, j: nat, block: seq<Member>, holder: Member)
    requires j <= |before|
    ensures multiset(before[..j] + block + before[j..] + [holder]) == multiset(before) + multiset(block + [holder])
  {
    assert before == before[..j] + before[j..];
  }

  /** When a comment, a keyword and a class are what was added, an inner class and no field or method was added. */
  lemma HolderAddedKinds(before: seq<Member>, r: seq<Member>, block: seq<Member>, holder: Member)
    requires |block| == 2 && block[0].Comment? && block[1].Keyword? && holder.InnerClass?
    requires multiset(r) == multiset(before) + multiset(block + [holder])
    ensures var added := multiset(r) - multiset(before);
      && multiset(before) <= multiset(r)
      && (exists m :: m in added && m.InnerClass?)
      && !(exists m :: m in added && (m.Field? || m.Method?))
  {
    var tail := block + [holder];
    assert multiset(r) - multiset(before) == multiset(tail);
    assert tail == [block[0], block[1], holder];
    assert holder in multiset(tail);
  }

  /** Appending members that end in a method and hold no inner class adds a method and no inner class. */
  lemma AppendedAddsNoClass(before: seq<Member>, tail: seq<Member>)
    requires |tail| > 0 && tail[|tail| - 1].Method?
    requires forall k :: 0 <= k < |tail| ==> !tail[k].InnerClass?
    ensures var r := before + tail;
      var added := multiset(r) - multiset(before);
      && multiset(before) <= multiset(r)
      && |r| >= |before| && r[..|before|] == before
      && (exists x :: x in added && (x.Field? || x.Method?))
      && !(exists x :: x in added && x.InnerClass?)
  {
    var r := before + tail;
    assert r[..|before|] == before;
    assert multiset(r) - multiset(before) == multiset(tail);
    assert tail[|tail| - 1] in multiset(tail);
    forall x: Member | x in multiset(tail) ensures !x.InnerClass? {
      var k :| 0 <= k < |tail| && tail[k] == x;
    }
  }

  /** A comment and a keyword followed by a class add an inner class and no field or method. */
  lemma HolderAppendedShape(before: seq<Member>, block: seq<Member>, holder: Member)
    requires |block| == 2 && block[0].Comment? && block[1].Keyword? && holder.InnerClass?
    ensures var r := before + block + [holder];
      && |r| == |before| + 3 && r[..|before|] == before
      && (exists k :: |before| <= k < |r| && r[k].InnerClass?)
      && !(exists k :: |before| <= k < |r| && (r[k].Field? || r[k].Method?))
  {
    var r := before + block + [holder];
    assert r[..|before|] == before;
    assert r[|before| + 2].InnerClass?;
    forall k | |before| <= k < |r| ensures !(r[k].Field? || r[k].Method?) {
      if k < |before| + 2 {
        assert r[k] == block[k - |before|];
      }
    }
  }

  // ---------------------------------------------------------------------------
  // The writer

  /**
   * The write command that inserts the injections into `target`. Its fields are
   * set once by the constructor; only the target class changes.
   */
  class InjectWriter {
    const target: PsiClassModel
    const elements: seq<Element>
    const layoutFileName: string
    const fieldNamePrefix: string
    const createHolder: bool
    const holderClassName: string
    const methodName: string
    const hasFindViewMethod: bool
    /** The table of widget and layout classes outside `android.widget`. */
    const paths: map<string, string>

    constructor (clazz: PsiClassModel, elements: seq<Element>, layoutFileName: string, fieldNamePrefix: string,
                 createHolder: bool, holderClassName: string, methodName: string, paths: map<string, string>)
      ensures target == clazz && this.elements == elements && this.layoutFileName == layoutFileName
      ensures this.fieldNamePrefix == fieldNamePrefix && this.createHolder == createHolder
      ensures this.holderClassName == holderClassName && this.methodName == methodName
      ensures this.paths == paths && hasFindViewMethod == clazz.hasFindViewById
    {
      target := clazz;
      this.elements := elements;
      this.layoutFileName := layoutFileName;
      this.fieldNamePrefix := fieldNamePrefix;
      this.createHolder := createHolder;
      this.holderClassName := holderClassName;
      this.methodName := methodName;
      this.paths := paths;
      hasFindViewMethod := clazz.hasFindViewById;
    }

    /** One declaration per element, in element order, selected or not. */
    method CreateViewFields() returns (fields: seq<string>)
      ensures fields == FieldTexts(elements, paths)
    {
      fields := [];
      for i := 0 to |elements|
        invariant fields == FieldTexts(elements[..i], paths)
      {
        assert elements[..i + 1][..i] == elements[..i];
        var field := CreateViewField(elements[i]);
        fields := fields + [field];
      }
      assert elements[..|elements|] == elements;
    }

    /** The body of the field loop: `private <type> <field name>;` with the type rule applied. */
    method CreateViewField(element: Element) returns (field: string)
      ensures field == "private " + ResolveType(element, paths) + " " + element.fieldName + ";"
    {
      field := "private ";
      if element.nameFull.Some? && |element.nameFull.value| > 0 {
        field := field + element.nameFull.value;
      } else if element.name in paths {
        field := field + paths[element.name];
      } else {
        field := field + WIDGET_PACKAGE;
        field := field + element.name;
      }
      field := field + " ";
      field := field + element.fieldName;
      field := field + ";";
      AppendTypeResolves("private ", element, paths);
    }

    /** The lookup statements of all elements, concatenated in element order. */
    method CreateInitViews(hasParams: bool) returns (s: string)
      ensures s == InitViewsText(elements, paths, hasParams)
    {
      s := "";
      for i := 0 to |elements|
        invariant s == InitViewsText(elements[..i], paths, hasParams)
      {
        assert elements[..i + 1][..i] == elements[..i];
        s := AppendLookup(s, elements[i], hasParams);
      }
      assert elements[..|elements|] == elements;
    }

    /** The body of the lookup loop: the statement that finds one element's view and casts it. */
    method AppendLookup(s0: string, element: Element, hasParams: bool) returns (s: string)
      ensures s == s0 + LookupStatement(element, paths, hasParams)
    {
      s := s0 + element.fieldName;
      s := s + "=(";
      if element.nameFull.Some? && |element.nameFull.value| > 0 {
        s := s + element.nameFull.value;
      } else if element.name in paths {
        s := s + paths[element.name];
      } else {
        s := s + WIDGET_PACKAGE;
        s := s + element.name;
      }
      assert s == AppendType(s0 + element.fieldName + "=(", element, paths);
      s := s + ")";
      ghost var withType := s;
      if hasParams {
        s := s + "root";
        s := s + ".";
      }
      assert s == if hasParams then withType + "root" + "." else withType;
      s := s + FIND_VIEW_BY_ID;
      var rPrefix;
      if element.isAndroidNS {
        rPrefix := ANDROID_ID_PREFIX;
      } else {
        rPrefix := APP_ID_PREFIX;
      }
      s := s + rPrefix;
      s := s + element.id;
      s := s + ");";
      s := s + "\n";
      AppendStatementIsLookup(s0, element, paths, hasParams);
    }

    /** The method header with the arguments joined by commas, then the lookup body in braces. */
    method CreateMethod(name: string, hasParams: bool, args: Option<seq<string>>) returns (text: string)
      ensures text == "private void " + name + "(" + ParameterList(args) + ")" + "{" + InitViewsText(elements, paths, hasParams) + "}"
    {
      text := "private void ";
      text := text + name;
      text := text + "(";
      var head := text;
      if args.Some? {
        var a := args.value;
        for i := 0 to |a|
          invariant text == head + Join(a[..i], ',') + (if 0 < i < |a| then "," else "")
        {
          var arg := a[i];
          if i > 0 {
            JoinSnoc(a[..i], arg, ',');
            assert a[..i + 1] == a[..i] + [arg];
            AppendAssoc(head, Join(a[..i], ','), ",");
            AppendAssoc(head, Join(a[..i], ',') + ",", arg);
          } else {
            assert a[..1] == [arg];
            assert head + Join(a[..0], ',') + "" == head;
          }
          text := text + arg;
          if i != |a| - 1 {
            text := text + ",";
          } else {
            assert text + "" == text;
          }
        }
        assert a[..|a|] == a;
      }
      text := text + ")";
      text := text + "{";
      var body := CreateInitViews(hasParams);
      text := text + body;
      text := text + "}";
    }

    /** The one-argument overload: always the `root` view parameter and `root.` lookups. */
    method CreateRootMethod(name: string) returns (text: string)
      ensures text == RootMethodText(name, elements, paths)
    {
      text := CreateMethod(name, true, Some([ROOT_PARAMETER]));
    }

    /** Direct mode: every field, then the lookup method, added to the target class. */
    method GenerateFields()
      modifies target
      ensures target.members == DirectModeMembers(old(target.members), elements, paths, methodName, target.hasFindViewById)
    {
      var fields := CreateViewFields();
      ghost var before := target.members;
      for i := 0 to |fields|
        invariant target.members == before + FieldMembers(fields[..i])
      {
        FieldMembersSnoc(fields, i);
        target.Add(Field(fields[i]));
      }
      assert fields[..|fields|] == fields;
      var text;
      if target.hasFindViewById {
        text := CreateMethod(methodName, false, None);
      } else {
        text := CreateRootMethod(methodName);
      }
      target.Add(Method(text));
    }

    /** The view holder class: its constructor, a field per element, then the `root` lookup method. */
    method CreateViewHolder() returns (holder: Member)
      ensures holder == HolderClass(holderClassName, methodName, elements, paths)
    {
      var holderBuilder := holderClassName;
      holderBuilder := holderBuilder + "(android.view.View view) {";
      holderBuilder := holderBuilder + methodName;
      holderBuilder := holderBuilder + "(view);";
      holderBuilder := holderBuilder + "}";
      assert holderBuilder == HolderConstructorText(holderClassName, methodName);

      var viewHolder := new PsiClassModel(holderClassName, [Method(holderBuilder)], false);

      var fields := CreateViewFields();
      for i := 0 to |fields|
        invariant viewHolder.members == [Method(holderBuilder)] + FieldMembers(fields[..i])
      {
        FieldMembersSnoc(fields, i);
        viewHolder.Add(Field(fields[i]));
      }
      assert fields[..|fields|] == fields;
      var lookup := CreateRootMethod(methodName);
      viewHolder.Add(Method(lookup));
      holder := InnerClass(viewHolder.name, viewHolder.members);
    }

    /** Holder mode: add the holder last, then put the comment and `static` before it. */
    method GenerateAdapter()
      modifies target
      ensures target.members == HolderModeMembers(old(target.members), elements, paths, layoutFileName, holderClassName, methodName)
    {
      var holder := CreateViewHolder();
      ghost var before := target.members;
      target.Add(holder);

      var comment := COMMENT_OPEN;
      comment := comment + COMMENT_INTRO;
      comment := comment + layoutFileName;
      comment := comment + COMMENT_INTRO_END;
      comment := comment + COMMENT_PURPOSE;
      comment := comment + COMMENT_BLANK;
      comment := comment + COMMENT_AUTHOR;
      comment := comment + COMMENT_CLOSE;

      ghost var withHolder := target.members;
      FindAddedLast(before, holder);
      var anchor := FindInnerClassByName(target.members, holderClassName);
      var k := anchor.value;
      target.AddBefore(Comment(comment), k);

      FindAfterInsert(withHolder, holderClassName, Comment(comment));
      anchor := FindInnerClassByName(target.members, holderClassName);
      target.AddBefore(Keyword("static"), anchor.value);
      InsertTwice(withHolder, k, Comment(comment), Keyword("static"));
    }

    /** Exactly one of the two modes runs, chosen by `createHolder`. */
    method Run()
      modifies target
      ensures target.members == RunMembers(old(target.members), elements, paths, layoutFileName,
                                           createHolder, holderClassName, methodName, target.hasFindViewById)
    {
      if createHolder {
        GenerateAdapter();
      } else {
        GenerateFields();
      }
    }
  }
}
