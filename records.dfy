/**
 * An annotation record as the converter and the audit script read it back
 * from `annotations/all_annotations.json`: only the parts they look at,
 * each JSON key that may be absent as an `Option`.
 */
module Records {
  import opened Base

  /**
   * The `classification` object: its `category` key, and its `density` key,
   * whose value is an integer or JSON `null` (the inner `None`).
   */
  datatype ClassInfo = ClassInfo(category: Option<string>, density: Option<Option<int>>)

  datatype Record = Record(filename: string, classification: Option<ClassInfo>)

  /** `ann['classification']['category']` when both keys are present. */
  function CategoryOf(r: Record): Option<string>
  {
    if r.classification.Some? then r.classification.value.category else None
  }

  /** `ann['classification']['density']` when both keys are present. */
  function DensityOf(r: Record): Option<Option<int>>
  {
    if r.classification.Some? then r.classification.value.density else None
  }

  /** The number of records whose category is `c`. */
  function CategoryCount(anns: seq<Record>, c: string): nat
  {
    if anns == [] then 0
    else CategoryCount(anns[..|anns| - 1], c) + (if CategoryOf(anns[|anns| - 1]) == Some(c) then 1 else 0)
  }
}
