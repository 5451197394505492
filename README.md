# Butter Knife Zelezny: injection writer and action, modelled in Dafny

Android Butter Knife Zelezny is an IntelliJ IDEA / Android Studio plugin.
It reads the view ids of an Android layout file, lets the user pick some of
them in a dialog, and writes Java code into the class under the caret. That
code is a field per view, plus a method that looks each view up with
`findViewById` and casts it. In "holder" mode, used for adapter classes,
the plugin puts these into a nested view-holder class instead, and puts a
descriptive comment and the `static` keyword in front of the first inner
class of the holder's name.

This project models two Java classes:

- `InjectWriter` builds the text of every field declaration, every lookup
  statement and the lookup method. It then inserts these constructs into
  the target class in a fixed order, in one of two modes.
- `InjectAction` counts the selected elements and runs the writer only when
  at least one is selected. It chooses the notification text. Before the
  dialog opens, it decides whether the class is an adapter and collects the
  ids the class already injects.

Files:

- `strings.dfy` (module `Strings`) models the `java.lang.String` operations
  the code relies on:
  - `split(" ")`, with Java's removal of trailing empty strings;
  - `trim`;
  - `String.valueOf` of a count;
  - a separator join, which the argument loop of the method header builds.
- `model.dfy` (module `Model`) holds the layout `Element` record and an
  `Option` type, whose `None` stands for Java's `null`.
- `psi.dfy` (module `Psi`) models the IDE's class syntax tree.
  - A class is a `PsiClassModel`: an object whose `members` list is
    changed in place by `Add` (the IDE's `add`) and by `AddBefore` (the
    IDE's `addBefore`).
  - `FindInnerClassByName` finds the first inner class of a given name.
- `inject_writer.dfy` (module `Writer`) has two parts:
  - specification functions that define the emitted text and the member
    list after each mode;
  - the class `InjectWriter`, whose methods build the text with the same
    appends, branches and loops as the Java code, and are proved to
    produce what those functions define.
- `inject_action.dfy` (module `Action`) holds the confirmation handler, the
  notification texts and the scans done before the dialog opens.

The class under the caret is `Psi.PsiClassModel`. Its `members` field is
the only state the writer changes, and every writer method states that new
state exactly.

## Model

Paths are relative to the repository root.

| member | source | states |
|---|---|---|
| Writer.AppendTypeResolves | src/eu/inmite/android/plugin/butterknifezelezny/InjectWriter.java:158-165 | The type rule as each loop appends it picks `nameFull` when it is non-null and non-empty, else the class listed for `name`, else `android.widget.` + `name` (`ResolveType`). |
| Writer.IdPrefix | src/eu/inmite/android/plugin/butterknifezelezny/InjectWriter.java:172-178 | The id prefix is `android.R.id.` exactly when the id is in the android namespace, and `R.id.` exactly otherwise. |
| Writer.ParameterList | src/eu/inmite/android/plugin/butterknifezelezny/InjectWriter.java:132-140 | A null or empty argument array gives an empty parameter list; a single argument is the whole list. |
| Writer.ParameterListRoundTrip | src/eu/inmite/android/plugin/butterknifezelezny/InjectWriter.java:133-140 | Splitting the parameter list at commas gives back the arguments when none holds a comma. |
| Writer.FieldTextsAt | src/eu/inmite/android/plugin/butterknifezelezny/InjectWriter.java:193-208 | Declaration `k` of the field list belongs to element `k`: one per element, in element order. |
| Writer.FieldTexts | src/eu/inmite/android/plugin/butterknifezelezny/InjectWriter.java:192-209 | There are exactly as many declarations as elements, so none is filtered out. |
| Writer.InitViewsAppend | src/eu/inmite/android/plugin/butterknifezelezny/InjectWriter.java:155-182 | The lookup body of a concatenation of element lists is the body of the first list followed by the body of the second. |
| Writer.InitViewsAt | src/eu/inmite/android/plugin/butterknifezelezny/InjectWriter.java:155-182 | The lookup body is the statements of the elements before `k`, then element `k`'s statement, then the statements of the rest. |
| Writer.FieldAndCastAgree | src/eu/inmite/android/plugin/butterknifezelezny/InjectWriter.java:155-206 | For each element, the field declaration is `private <type> <fieldName>;`, and the lookup statement starts with `<fieldName>=(<type>)`, a cast to that same type. |
| Writer.AppendStatementIsLookup | src/eu/inmite/android/plugin/butterknifezelezny/InjectWriter.java:156-181 | The appends of one loop pass add exactly `fieldName=(<type>)` + (`root.` when there are parameters) + `findViewById(<prefix><id>);` and a newline. |
| Writer.WriterIgnoresSelection | src/eu/inmite/android/plugin/butterknifezelezny/InjectWriter.java:155-207 | Element lists that differ only in `used` give the same declarations and the same lookup body: the writer ignores the selection. |
| Writer.TextIgnoresSelection | src/eu/inmite/android/plugin/butterknifezelezny/InjectWriter.java:156-206 | The same holds for one element's declaration and lookup statement. |
| Writer.InitViewsIgnoreSelection | src/eu/inmite/android/plugin/butterknifezelezny/InjectWriter.java:155-182 | The same holds for the whole lookup body. |
| Writer.FieldNameRecoverable | src/eu/inmite/android/plugin/butterknifezelezny/InjectWriter.java:204-206 | Reading back the text after the last space of a declaration gives the field name, when the name holds no space. |
| Writer.DistinctFieldNamesDistinctFields | src/eu/inmite/android/plugin/butterknifezelezny/InjectWriter.java:192-209 | Distinct space-free field names give distinct declarations. |
| Writer.DirectModeShape | src/eu/inmite/android/plugin/butterknifezelezny/InjectWriter.java:215-225 | Direct mode keeps the old members as a prefix. It then adds one field per element, in element order, and finally one method, and nothing else. |
| Writer.HolderCommentInjective | src/eu/inmite/android/plugin/butterknifezelezny/InjectWriter.java:101-110 | The holder comment determines the layout file name it was built with. |
| Writer.HolderModeShape | src/eu/inmite/android/plugin/butterknifezelezny/InjectWriter.java:98-113 | Holder mode adds exactly the comment, the `static` keyword and the holder class. With no older inner class of that name, they go after the old members in that order. Otherwise the comment and keyword go before the older class. |
| Writer.ModesExclusive | src/eu/inmite/android/plugin/butterknifezelezny/InjectWriter.java:63-67 | `run` keeps every old member, as a prefix in direct mode and in holder mode when no inner class has the holder's name yet. Among the members it adds, there is an inner class exactly in holder mode and a field or method exactly in direct mode, including on a class that already has an inner class of the holder's name. |
| Writer.InjectWriter.constructor | src/eu/inmite/android/plugin/butterknifezelezny/InjectWriter.java:30-44 | Each argument lands in the field of that position. `hasFindViewMethod` records whether the class has a `findViewById`. |
| Writer.InjectWriter.CreateViewFields | src/eu/inmite/android/plugin/butterknifezelezny/InjectWriter.java:191-210 | The list built is exactly `FieldTexts` of all elements. |
| Writer.InjectWriter.CreateViewField | src/eu/inmite/android/plugin/butterknifezelezny/InjectWriter.java:194-206 | One declaration is `private ` + the resolved type + ` ` + the field name + `;`. |
| Writer.InjectWriter.CreateInitViews | src/eu/inmite/android/plugin/butterknifezelezny/InjectWriter.java:153-184 | The text built is the concatenation of the elements' lookup statements, in element order. |
| Writer.InjectWriter.AppendLookup | src/eu/inmite/android/plugin/butterknifezelezny/InjectWriter.java:156-181 | One loop pass appends exactly one element's lookup statement. |
| Writer.InjectWriter.CreateMethod | src/eu/inmite/android/plugin/butterknifezelezny/InjectWriter.java:126-146 | The text is `private void <name>(` + the arguments joined by commas + `){` + the lookup body + `}`. |
| Writer.InjectWriter.CreateRootMethod | src/eu/inmite/android/plugin/butterknifezelezny/InjectWriter.java:122-124 | The one-argument overload always takes `android.view.View root`, and its lookups go through `root.`. |
| Writer.InjectWriter.GenerateFields | src/eu/inmite/android/plugin/butterknifezelezny/InjectWriter.java:215-225 | The class gains every field, then the lookup method: without parameters when the class has `findViewById`, with the `root` parameter otherwise. |
| Writer.InjectWriter.CreateViewHolder | src/eu/inmite/android/plugin/butterknifezelezny/InjectWriter.java:82-97 | The holder is named by the holder name and holds its constructor text, then every field, then the `root` lookup method. |
| Writer.InjectWriter.GenerateAdapter | src/eu/inmite/android/plugin/butterknifezelezny/InjectWriter.java:80-114 | The class gains the holder last. The comment, then `static`, are inserted before the first inner class of the holder's name. |
| Writer.InjectWriter.Run | src/eu/inmite/android/plugin/butterknifezelezny/InjectWriter.java:61-67 | Exactly one mode runs, chosen by `createHolder` alone. |
| Psi.FindInnerClassByName | src/eu/inmite/android/plugin/butterknifezelezny/InjectWriter.java:112-113 | The search returns the first inner class of that name, or none exactly when there is none. |
| Psi.FindInAppend | src/eu/inmite/android/plugin/butterknifezelezny/InjectWriter.java:98-113 | The first match in `a + b` is the first match in `a`, or else the first match in `b`, shifted by the length of `a`. |
| Psi.FindIsFirst | src/eu/inmite/android/plugin/butterknifezelezny/InjectWriter.java:112-113 | A matching position with no match before it is what the search returns. |
| Psi.InsertBeforeAdded | src/eu/inmite/android/plugin/butterknifezelezny/InjectWriter.java:98-113 | Inserting before a class just added to the end lands right before it, unless an older class has the same name. |
| Psi.FindAddedLast | src/eu/inmite/android/plugin/butterknifezelezny/InjectWriter.java:98-112 | After the holder is added, the search for its name finds a class, so `addBefore` has an anchor. |
| Psi.FindAfterInsert | src/eu/inmite/android/plugin/butterknifezelezny/InjectWriter.java:112-113 | After the comment is inserted, the second search finds the same class one position further on. |
| Psi.InsertTwice | src/eu/inmite/android/plugin/butterknifezelezny/InjectWriter.java:112-113 | The two insertions place the comment and the keyword, in that order, directly before the anchor. |
| Psi.PsiClassModel.constructor | src/eu/inmite/android/plugin/butterknifezelezny/InjectWriter.java:90-91 | The class made from the constructor text is named by the holder name and starts with the given members. |
| Psi.PsiClassModel.Add | src/eu/inmite/android/plugin/butterknifezelezny/InjectWriter.java:95-98 | `add` puts the member last and leaves the others unchanged. |
| Psi.PsiClassModel.AddBefore | src/eu/inmite/android/plugin/butterknifezelezny/InjectWriter.java:112-113 | `addBefore` puts the member immediately before the anchor and leaves the others unchanged and in order. |
| Action.SelectedCountAppend | src/eu/inmite/android/plugin/butterknifezelezny/InjectAction.java:80-85 | The count over a concatenation is the sum of the two counts. |
| Action.SelectedCountBounds | src/eu/inmite/android/plugin/butterknifezelezny/InjectAction.java:80-85 | The count is at most the number of elements. It is zero exactly when none is selected, and equals the length exactly when all are. |
| Action.NotificationRoundTrip | src/eu/inmite/android/plugin/butterknifezelezny/InjectAction.java:91-97 | The count can be read back from every notification: 0 from the no-selection text, 1 from `One injection added to <file>`, and otherwise from the leading decimal number. |
| Action.NotificationDeterminesCount | src/eu/inmite/android/plugin/butterknifezelezny/InjectAction.java:91-97 | For a given file, different counts give different notifications. |
| Action.OnConfirm | src/eu/inmite/android/plugin/butterknifezelezny/InjectAction.java:72-99 | The message matches the count of selected elements. With a count of zero the class is unchanged. Otherwise the writer has run with the arguments as the call site passes them. |
| Action.HolderComment | src/eu/inmite/android/plugin/butterknifezelezny/InjectWriter.java:98-113 | In a class without an older holder of that name, holder mode puts the comment for the given layout name directly after the old members. |
| Action.ConfirmedHolderCommentShowsPrefix | src/eu/inmite/android/plugin/butterknifezelezny/InjectAction.java:89 | As called, the holder comment shows the field-name prefix. It differs from the comment for the layout file whenever the two strings differ. |
| Action.OnConfirmIntended | src/eu/inmite/android/plugin/butterknifezelezny/InjectAction.java:72-99 | The same handler with the layout file name in the writer's layout-file slot. The holder comment then names the layout file. |
| Action.TokenIds | src/eu/inmite/android/plugin/butterknifezelezny/InjectAction.java:129-134 | No collected id is empty. |
| Action.TokenIdsMembership | src/eu/inmite/android/plugin/butterknifezelezny/InjectAction.java:129-134 | An id is collected from a field's tokens exactly when it is non-empty and some trimmed token yields it. |
| Action.FieldIdsOfOneToken | src/eu/inmite/android/plugin/butterknifezelezny/InjectAction.java:127-134 | A first child with no space splits into itself, so it yields at most its own trimmed token's id. |
| Action.InjectedIds | src/eu/inmite/android/plugin/butterknifezelezny/InjectAction.java:126-135 | No collected id over all fields is empty. |
| Action.InjectedIdsAppend | src/eu/inmite/android/plugin/butterknifezelezny/InjectAction.java:126-135 | The ids of later fields follow those of earlier ones, with nothing merged, so duplicates stay. |
| Action.DetectAdapter | src/eu/inmite/android/plugin/butterknifezelezny/InjectAction.java:111-117 | Holder mode is chosen exactly when some class in the extends list is a known adapter. It is never reset. |
| Action.CollectInjectedIds | src/eu/inmite/android/plugin/butterknifezelezny/InjectAction.java:121-135 | The list built is `InjectedIds`: field by field, then token by token, with every non-empty id appended. |
| Action.ShowDialog | src/eu/inmite/android/plugin/butterknifezelezny/InjectAction.java:105-137 | The dialog gets the elements unchanged, the adapter decision and the ids already injected, as separate values. |
| Strings.JavaSplitSpec | src/eu/inmite/android/plugin/butterknifezelezny/InjectAction.java:127 | `split(" ")` gives the pieces between spaces up to the last non-empty one. An input without a space comes back whole. No piece holds a space. |
| Strings.PiecesOfJoin | src/eu/inmite/android/plugin/butterknifezelezny/InjectWriter.java:133-140 | Splitting a joined list of separator-free parts gives the parts back. |
| Strings.JoinOfPieces | src/eu/inmite/android/plugin/butterknifezelezny/InjectWriter.java:133-140 | Joining the pieces of a string gives the string back. |
| Strings.JoinSnoc | src/eu/inmite/android/plugin/butterknifezelezny/InjectWriter.java:133-139 | One more argument adds a comma and the argument at the end. |
| Strings.TrimIsBothEnds | src/eu/inmite/android/plugin/butterknifezelezny/InjectAction.java:130 | `trim` is stripping the front, then the back. |
| Strings.TrimSpec | src/eu/inmite/android/plugin/butterknifezelezny/InjectAction.java:130 | The trimmed token is a contiguous part of the token that neither starts nor ends with a character up to the space character. Every character dropped from either end is such a character. A string without such characters is left unchanged. |
| Strings.DecimalRoundTrip | src/eu/inmite/android/plugin/butterknifezelezny/InjectAction.java:94 | `String.valueOf(cnt)` is a non-empty decimal numeral whose value is `cnt`. |

## Left out

- The IDE's clean-up steps at the end of `run` (InjectWriter.java:68-73) are
  not modelled. `shortenClassReferences` replaces the fully qualified names
  the writer emits (the field types, the casts, `android.view.View root`,
  `android.view.View view`) with short names and adds import statements.
  `optimizeImports` edits the file's import list, and the reformat
  processor re-lays out the code. `RunMembers` and every member text
  describe the class before these steps.
- Psi.PsiClassModel.Add records the order of the `add` calls. Where the IDE
  finally places a member is its own decision, and the code does not
  show it.
- The factory calls (`createFieldFromText`, `createMethodFromText`,
  `createClassFromText`, `createCommentFromText`, `createKeyword`) are
  modelled as building a `Psi.Member` from the text, so the text is taken
  to parse. `createClassFromText` followed by `setName` (InjectWriter.java:90-91)
  is the single `PsiClassModel` constructor.
- `checkHasFindViewMethod` (InjectWriter.java:51-59) queries the IDE's method
  index. It is the flag `PsiClassModel.hasFindViewById`, fixed for the
  class.
- The command name `"Generate Injections"`, the project and the file given
  to the write command are not modelled: they do not reach the emitted code.
- `isValidForClass`, `isValidForFile`, `actionPerformed` and
  `actionPerformedImpl` (InjectAction.java:35-70) are not modelled. They
  depend on the SDK lookup and the editor.
- The Swing dialog is not modelled: the `mDialog` field, `closeDialog` and
  `onCancel` (InjectAction.java:23, 101-103, 137-154) are UI. `ShowDialog`
  stops at the values it would hand to the dialog.
- Collaborators whose code is not part of this model become parameters:
  - `Utils.getInjectionID` becomes a function `injectionId`, with Java's
    `null` result stood in for by the empty string.
  - `Utils.isEmptyString` becomes the test for the empty string.
  - `Defintions.paths` becomes a map.
  - `Defintions.adapters` becomes a set.
  - The qualified names of the extends list and the texts of the fields'
    first children become sequences.
  - The editor's file name and the layout's file name become strings, so
    `layout` is taken to be non-null.
  - In the notification, these calls are reduced to the message string.
- Action.ShowDialog: unresolved qualified names (null in Java) are not
  modelled. The extends list holds only names.
- Action.DetectAdapter and Action.CollectInjectedIds are written as
  separate methods that `ShowDialog` calls. In Java the two scans are
  inline in `showDialog`, but each keeps the loop structure of the Java
  code.
- The type rule is written out in both field and lookup loops, as in
  Java. The body of each loop is a helper method:
  `InjectWriter.CreateViewField` and `InjectWriter.AppendLookup`.
- Strings are sequences of characters. Java's `split` takes a regular
  expression, and only the single-space pattern the code passes is
  modelled.
- The writer emits every element, whether `used` or not
  (`WriterIgnoresSelection`). It checks no identifiers or options. It has
  no empty-selection no-op of its own: `OnConfirm` skips it when the
  count is zero.
- Psi.FindInnerClassByName: the IDE call at InjectWriter.java:112-113
  passes `checkBases` true, so it also searches the inner classes of the
  superclasses. The model searches only the class's own members, because
  the class hierarchy is not modelled.

## Findings

| source | as written | input that shows it | evidently intended | confidence | as-written member | corrected member |
|---|---|---|---|---|---|---|
| src/eu/inmite/android/plugin/butterknifezelezny/InjectAction.java:89 | The writer is constructed with `fieldNamePrefix, layout.getName()`. The constructor declares `layoutFileName, fieldNamePrefix` (InjectWriter.java:30), so the holder comment names the field-name prefix as the layout file. | holder mode, one selected element, prefix `m`, layout `item_row.xml`: the comment reads "from layout file 'm'" | the comment names `item_row.xml` | high; not executed | Action.ConfirmedHolderCommentShowsPrefix | Action.OnConfirmIntended |
