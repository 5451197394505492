/**
 * The layout element descriptor the plugin works on (its `model.Element`),
 * and the Option type used for Java references that may be null.
 */
module Model {

  datatype Option<T> = None | Some(value: T)

  /**
   * One id found in the layout file.
   * `nameFull` is the custom class written in the layout (`None` for Java null),
   * `name` the widget tag, `isAndroidNS` whether the id lives in `android.R.id`,
   * `fieldName` the field the generator declares, `used` whether the user
   * ticked the element in the dialog.
   */
  datatype Element = Element(
    id: string,
    name: string,
    nameFull: Option<string>,
    isAndroidNS: bool,
    fieldName: string,
    used: bool)

  /** The element written with a custom class (`nameFull` non-null and non-empty). */
  predicate HasCustomClass(e: Element)
  {
    e.nameFull.Some? && |e.nameFull.value| > 0
  }

  /** Two elements that differ at most in their `used` flag. */
  predicate SameButSelection(a: Element, b: Element)
  {
    a.id == b.id && a.name == b.name && a.nameFull == b.nameFull
      && a.isAndroidNS == b.isAndroidNS && a.fieldName == b.fieldName
  }
}
