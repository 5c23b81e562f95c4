/** Precondition helpers that either return their argument or throw. */
module Preconditions {
  import opened Results
  import opened JsModel

  /** `checkNonUndefined`: rejects `undefined` and `null` only. A thrown
      error is `Err(message)`; the caller's message wins when it is non-empty. */
  function CheckNonUndefined(item: JsValue, msg: string): (r: Result<JsValue, string>)
    ensures r.Ok? <==> !Nullish(item)
    ensures r.Ok? ==> r.value == item
    ensures r.Err? ==> r.error != "" && (msg != "" ==> r.error == msg)
  {
    if item == Undefined then Err(if msg != "" then msg else "item is undefined")
    else if item == Null then Err(if msg != "" then msg else "item is null")
    else Ok(item)
  }

  /** `checkNonEmpty`: returns the item exactly when it is truthy. */
  function CheckNonEmpty(item: JsValue, msg: string): (r: Result<JsValue, string>)
    ensures r.Ok? <==> Truthy(item)
    ensures r.Ok? ==> r.value == item
    ensures r.Err? ==> r.error != "" && (msg != "" ==> r.error == msg)
  {
    if Truthy(item) then Ok(item) else Err(if msg != "" then msg else "item is empty")
  }

  /** Whatever `checkNonEmpty` accepts, `checkNonUndefined` accepts unchanged;
      the converse fails exactly on the defined falsy values. */
  lemma NonEmptyIsStricter(item: JsValue, msg: string)
    ensures CheckNonEmpty(item, msg).Ok? ==> CheckNonUndefined(item, msg) == CheckNonEmpty(item, msg)
    ensures CheckNonUndefined(item, msg).Ok? && CheckNonEmpty(item, msg).Err? <==>
              item in {Bool(false), Num(0), Str("")}
  {
  }
}
