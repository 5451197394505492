/**
 * The editor action around the writer: on confirmation it counts the
 * selected elements, runs the writer only when there is at least one and
 * picks the notification; before showing the dialog it decides whether the
 * target class is an adapter and collects the ids of views already
 * injected into it.
 */
module Action {
  import opened Strings
  import opened Model
  import opened Psi
  import opened Writer

  const NO_SELECTION := "No injection was selected"
  const ONE_ADDED := "One injection added to "
  const MANY_ADDED := " injections added to "

  /** The number of elements the user selected in the dialog. */
  function SelectedCount(es: seq<Element>): nat
  {
    if es == [] then 0
    else SelectedCount(es[..|es| - 1]) + (if es[|es| - 1].used then 1 else 0)
  }

  /** The count of a concatenation is the sum of the counts. */
  lemma {:induction false} SelectedCountAppend(a: seq<Element>, b: seq<Element>)
    ensures SelectedCount(a + b) == SelectedCount(a) + SelectedCount(b)
  {
    if b != [] {
      assert (a + b)[..|a + b| - 1] == a + b[..|b| - 1];
      assert (a + b)[|a + b| - 1] == b[|b| - 1];
      SelectedCountAppend(a, b[..|b| - 1]);
    } else {
      assert a + b == a;
    }
  }

  /**
   * The count is at most the number of elements; it is zero exactly when no
   * element is selected and equals the length exactly when all are.
   */
  lemma {:induction false} SelectedCountBounds(es: seq<Element>)
    ensures SelectedCount(es) <= |es|
    ensures SelectedCount(es) == 0 <==> forall k :: 0 <= k < |es| ==> !es[k].used
    ensures SelectedCount(es) == |es| <==> forall k :: 0 <= k < |es| ==> es[k].used
  {
    if es != [] {
      var n := |es| - 1;
      SelectedCountBounds(es[..n]);
      assert forall k :: 0 <= k < n ==> es[..n][k] == es[k];
    }
  }

  /** The notification shown after confirmation, for `cnt` selected elements. */
  function NotificationText(cnt: nat, fileName: string): string
  {
    if cnt == 0 then NO_SELECTION
    else if cnt == 1 then ONE_ADDED + fileName
    else NatToDecimal(cnt) + MANY_ADDED + fileName
  }

  /** The longest prefix of `s` made of decimal digits. */
  function LeadingDigits(s: string): (r: string)
    ensures IsDigits(r) && |r| <= |s| && r == s[..|r|]
  {
    if s != [] && '0' <= s[0] <= '9' then [s[0]] + LeadingDigits(s[1..]) else []
  }

  /** The digits in front of text that starts with a non-digit are exactly the leading digits. */
  lemma {:induction false} LeadingDigitsOfAppend(d: string, x: string)
    requires IsDigits(d)
    requires |x| > 0 && !('0' <= x[0] <= '9')
    ensures LeadingDigits(d + x) == d
  {
    if d == [] {
      assert d + x == x;
    } else {
      assert (d + x)[1..] == d[1..] + x;
      LeadingDigitsOfAppend(d[1..], x);
      assert d == [d[0]] + d[1..];
    }
  }

  /** Reading the count back from a notification about `fileName`; `None` for any other text. */
  function NotificationCount(message: string, fileName: string): Option<nat>
  {
    if message == NO_SELECTION then Some(0)
    else if message == ONE_ADDED + fileName then Some(1)
    else
      var digits := LeadingDigits(message);
      if |digits| > 0 && message == digits + MANY_ADDED + fileName then Some(DecimalValue(digits))
      else None
  }

  /** Every notification reports its count: reading the count back gives it. */
  lemma NotificationRoundTrip(cnt: nat, fileName: string)
    ensures NotificationCount(NotificationText(cnt, fileName), fileName) == Some(cnt)
  {
    var m := NotificationText(cnt, fileName);
    if cnt == 1 {
      assert m[0] != NO_SELECTION[0];
    } else if cnt >= 2 {
      var digits := NatToDecimal(cnt);
      DecimalRoundTrip(cnt);
      assert m[0] != NO_SELECTION[0] && m[0] != (ONE_ADDED + fileName)[0];
      AppendAssoc(digits, MANY_ADDED, fileName);
      LeadingDigitsOfAppend(digits, MANY_ADDED + fileName);
    }
  }

  /** For a given file, different counts give different notifications. */
  lemma NotificationDeterminesCount(c1: nat, c2: nat, fileName: string)
    requires NotificationText(c1, fileName) == NotificationText(c2, fileName)
    ensures c1 == c2
  {
    NotificationRoundTrip(c1, fileName);
    NotificationRoundTrip(c2, fileName);
  }

  /**
   * Confirmation: count the selected elements; with at least one, run the
   * writer on `target` and report how many were injected; with none, change
   * nothing. The writer is constructed with the arguments in the order of
   * the call site, which passes the field-name prefix where the writer
   * expects the layout file name and the layout file name where it expects
   * the prefix.
   */
  method OnConfirm(target: PsiClassModel, elements: seq<Element>, fieldNamePrefix: string, createHolder: bool,
                   holderClassName: string, methodName: string, fileName: string, layoutName: string,
                   paths: map<string, string>)
    returns (message: string)
    modifies target
    ensures message == NotificationText(SelectedCount(elements), fileName)
    ensures SelectedCount(elements) == 0 ==> target.members == old(target.members)
    ensures SelectedCount(elements) > 0 ==>
      target.members == RunMembers(old(target.members), elements, paths, fieldNamePrefix, createHolder,
                                   holderClassName, methodName, target.hasFindViewById)
  {
    var cnt := 0;
    for i := 0 to |elements|
      invariant cnt == SelectedCount(elements[..i])
    {
      assert elements[..i + 1][..i] == elements[..i];
      if elements[i].used {
        cnt := cnt + 1;
      }
    }
    assert elements[..|elements|] == elements;

    if cnt > 0 {
      var writer := new InjectWriter(target, elements, fieldNamePrefix, layoutName, createHolder,
                                     holderClassName, methodName, paths);
      writer.Run();
      if cnt == 1 {
        message := ONE_ADDED + fileName;
      } else {
        message := NatToDecimal(cnt) + MANY_ADDED + fileName;
      }
    } else {
      message := NO_SELECTION;
    }
  }

  /**
   * The comment holder mode puts in front of the new holder class, when the
   * class has no inner class of that name yet.
   */
  lemma HolderComment(before: seq<Member>, elements: seq<Element>, paths: map<string, string>,
                      layoutFileName: string, holderClassName: string, methodName: string, hasFindViewById: bool)
    requires FindInnerClassByName(before, holderClassName).None?
    ensures var r := RunMembers(before, elements, paths, layoutFileName, true, holderClassName, methodName, hasFindViewById);
      |r| > |before| && r[|before|] == Comment(HolderCommentText(layoutFileName))
  {
    var holder := HolderClass(holderClassName, methodName, elements, paths);
    InsertBeforeAdded(before, holder, [Comment(HolderCommentText(layoutFileName)), Keyword("static")]);
  }

  /**
   * As the call site is written, the holder comment that claims to name the
   * layout file names the field-name prefix instead, and so differs from the
   * comment for the layout file whenever the two strings differ.
   */
  lemma ConfirmedHolderCommentShowsPrefix(before: seq<Member>, elements: seq<Element>, paths: map<string, string>,
                                          fieldNamePrefix: string, layoutName: string, holderClassName: string,
                                          methodName: string, hasFindViewById: bool)
    requires FindInnerClassByName(before, holderClassName).None?
    requires fieldNamePrefix != layoutName
    ensures var r := RunMembers(before, elements, paths, fieldNamePrefix, true, holderClassName, methodName, hasFindViewById);
      |r| > |before| && r[|before|] == Comment(HolderCommentText(fieldNamePrefix))
      && r[|before|] != Comment(HolderCommentText(layoutName))
  {
    HolderComment(before, elements, paths, fieldNamePrefix, holderClassName, methodName, hasFindViewById);
    if HolderCommentText(fieldNamePrefix) == HolderCommentText(layoutName) {
      HolderCommentInjective(fieldNamePrefix, layoutName);
    }
  }

  /**
   * Confirmation with the writer's arguments in the order its constructor
   * declares them: the layout file name where the layout file name goes.
   */
  method OnConfirmIntended(target: PsiClassModel, elements: seq<Element>, fieldNamePrefix: string, createHolder: bool,
                           holderClassName: string, methodName: string, fileName: string, layoutName: string,
                           paths: map<string, string>)
    returns (message: string)
    modifies target
    ensures message == NotificationText(SelectedCount(elements), fileName)
    ensures SelectedCount(elements) == 0 ==> target.members == old(target.members)
    ensures SelectedCount(elements) > 0 ==>
      target.members == RunMembers(old(target.members), elements, paths, layoutName, createHolder,
                                   holderClassName, methodName, target.hasFindViewById)
  {
    var cnt := 0;
    for i := 0 to |elements|
      invariant cnt == SelectedCount(elements[..i])
    {
      assert elements[..i + 1][..i] == elements[..i];
      if elements[i].used {
        cnt := cnt + 1;
      }
    }
    assert elements[..|elements|] == elements;

    if cnt > 0 {
      var writer := new InjectWriter(target, elements, layoutName, fieldNamePrefix, createHolder,
                                     holderClassName, methodName, paths);
      writer.Run();
      if cnt == 1 {
        message := ONE_ADDED + fileName;
      } else {
        message := NatToDecimal(cnt) + MANY_ADDED + fileName;
      }
    } else {
      message := NO_SELECTION;
    }
  }

  /** What the dialog is opened with: the layout's elements, the ids already injected, and the mode. */
  datatype DialogInput = DialogInput(elements: seq<Element>, ids: seq<string>, createHolder: bool)

  /** The id one annotation token yields: the token trimmed, then looked up; empty when it names none. */
  function TokenId(token: string, injectionId: string -> string): string
  {
    injectionId(Trim(token))
  }

  /** The ids one field's annotation tokens yield, in token order; empty results are dropped. */
  function TokenIds(tokens: seq<string>, injectionId: string -> string): (r: seq<string>)
    ensures forall k :: 0 <= k < |r| ==> r[k] != []
  {
    if tokens == [] then []
    else
      var id := TokenId(tokens[|tokens| - 1], injectionId);
      TokenIds(tokens[..|tokens| - 1], injectionId) + (if id != [] then [id] else [])
  }

  /** The ids of one field: the tokens of its first child's text between single spaces. */
  function FieldIds(firstChildText: string, injectionId: string -> string): seq<string>
  {
    TokenIds(JavaSplit(firstChildText, ' '), injectionId)
  }

  /** A first child without a space is one token: the field yields at most that token's id. */
  lemma FieldIdsOfOneToken(firstChildText: string, injectionId: string -> string)
    requires ' ' !in firstChildText
    ensures var id := TokenId(firstChildText, injectionId);
      FieldIds(firstChildText, injectionId) == if id != [] then [id] else []
  {
    var tokens := [firstChildText];
    assert JavaSplit(firstChildText, ' ') == tokens;
    assert tokens[..0] == [];
    var id := TokenId(firstChildText, injectionId);
    assert TokenIds(tokens, injectionId) == [] + (if id != [] then [id] else []);
  }

  /** The ids of views already injected, field by field in order. */
  function InjectedIds(firstChildTexts: seq<string>, injectionId: string -> string): (r: seq<string>)
    ensures forall k :: 0 <= k < |r| ==> r[k] != []
  {
    if firstChildTexts == [] then []
    else
      InjectedIds(firstChildTexts[..|firstChildTexts| - 1], injectionId)
        + FieldIds(firstChildTexts[|firstChildTexts| - 1], injectionId)
  }

  /** The ids of more fields follow those of the earlier ones; nothing is merged, so duplicates stay. */
  lemma {:induction false} InjectedIdsAppend(a: seq<string>, b: seq<string>, injectionId: string -> string)
    ensures InjectedIds(a + b, injectionId) == InjectedIds(a, injectionId) + InjectedIds(b, injectionId)
  {
    if b != [] {
      assert (a + b)[..|a + b| - 1] == a + b[..|b| - 1];
      assert (a + b)[|a + b| - 1] == b[|b| - 1];
      InjectedIdsAppend(a, b[..|b| - 1], injectionId);
    } else {
      assert a + b == a;
    }
  }

  lemma TokenIdsSnoc(tokens: seq<string>, j: nat, injectionId: string -> string)
    requires j < |tokens|
    ensures var id := injectionId(Trim(tokens[j]));
      TokenIds(tokens[..j + 1], injectionId) == TokenIds(tokens[..j], injectionId) + (if id != [] then [id] else [])
  {
    assert tokens[..j + 1][..j] == tokens[..j];
  }

  /** A token contributes an id exactly when that id is non-empty. */
  lemma {:induction false} TokenIdsMembership(tokens: seq<string>, injectionId: string -> string, id: string)
    ensures id in TokenIds(tokens, injectionId) <==>
      id != [] && exists j :: 0 <= j < |tokens| && TokenId(tokens[j], injectionId) == id
  {
    if tokens != [] {
      var n := |tokens| - 1;
      var init := tokens[..n];
      var last := TokenId(tokens[n], injectionId);
      TokenIdsMembership(init, injectionId, id);
      assert TokenIds(tokens, injectionId) == TokenIds(init, injectionId) + (if last != [] then [last] else []);
      if id in TokenIds(tokens, injectionId) {
        if id in TokenIds(init, injectionId) {
          var j :| 0 <= j < |init| && TokenId(init[j], injectionId) == id;
          assert tokens[j] == init[j];
        } else {
          assert TokenId(tokens[n], injectionId) == id;
        }
      }
      if id != [] && exists j :: 0 <= j < |tokens| && TokenId(tokens[j], injectionId) == id {
        var j :| 0 <= j < |tokens| && TokenId(tokens[j], injectionId) == id;
        if j < n {
          assert init[j] == tokens[j];
        }
      }
    }
  }

  /** Some class in the extends list is a known adapter class. */
  predicate ExtendsAdapter(extendsNames: seq<string>, adapters: set<string>)
  {
    exists k :: 0 <= k < |extendsNames| && extendsNames[k] in adapters
  }

  /** The adapter check before the dialog opens: does the class extend a known adapter class? */
  method DetectAdapter(extendsNames: seq<string>, adapters: set<string>) returns (createHolder: bool)
    ensures createHolder <==> ExtendsAdapter(extendsNames, adapters)
  {
    createHolder := false;
    for k := 0 to |extendsNames|
      invariant createHolder <==> exists j :: 0 <= j < k && extendsNames[j] in adapters
    {
      if extendsNames[k] in adapters {
        createHolder := true;
      }
    }
  }

  /** The scan for injections already in the class, over the first-child texts of its fields. */
  method CollectInjectedIds(firstChildTexts: seq<string>, injectionId: string -> string) returns (ids: seq<string>)
    ensures ids == InjectedIds(firstChildTexts, injectionId)
  {
    ids := [];
    for i := 0 to |firstChildTexts|
      invariant ids == InjectedIds(firstChildTexts[..i], injectionId)
    {
      assert firstChildTexts[..i + 1][..i] == firstChildTexts[..i];
      var annotations := JavaSplit(firstChildTexts[i], ' ');
      ghost var before := ids;
      for j := 0 to |annotations|
        invariant ids == before + TokenIds(annotations[..j], injectionId)
      {
        TokenIdsSnoc(annotations, j, injectionId);
        var id := injectionId(Trim(annotations[j]));
        if id != [] {
          AppendAssoc(before, TokenIds(annotations[..j], injectionId), [id]);
          ids := ids + [id];
        }
      }
      assert annotations[..|annotations|] == annotations;
    }
    assert firstChildTexts[..|firstChildTexts|] == firstChildTexts;
  }

  /**
   * Preparing the dialog: holder mode exactly when the class extends a known
   * adapter, and the ids of the injections already in the class. The elements
   * are handed on as they came.
   */
  method ShowDialog(elements: seq<Element>, extendsNames: seq<string>, adapters: set<string>,
                    firstChildTexts: seq<string>, injectionId: string -> string)
    returns (input: DialogInput)
    ensures input.elements == elements
    ensures input.createHolder <==> ExtendsAdapter(extendsNames, adapters)
    ensures input.ids == InjectedIds(firstChildTexts, injectionId)
  {
    var createHolder := DetectAdapter(extendsNames, adapters);
    var ids := CollectInjectedIds(firstChildTexts, injectionId);
    input := DialogInput(elements, ids, createHolder);
  }
}
