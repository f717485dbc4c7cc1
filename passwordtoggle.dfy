/**
 * The show/hide button next to each password field: a click switches the
 * target input's `type` attribute between `password` and `text`.
 */
module PasswordToggle {
  import opened Wrappers

  /**
   * The new `type` for an input whose `type` attribute is `current` (`None`
   * when the attribute is absent): anything but `password` becomes `password`.
   */
  function NextType(current: Option<string>): (r: string)
    ensures r == "text" <==> current == Some("password")
    ensures r == "password" <==> current != Some("password")
  {
    if current == Some("password") then "text" else "password"
  }

  /** Two clicks on a field that shows `password` or `text` restore its type. */
  lemma ToggleTwice(t: string)
    requires t == "password" || t == "text"
    ensures NextType(Some(NextType(Some(t)))) == t
  {
  }

  /** One click on a field of any other type hides it; a second click shows it. */
  lemma ToggleFromOther(t: string)
    requires t != "password"
    ensures NextType(Some(t)) == "password"
    ensures NextType(Some(NextType(Some(t)))) == "text"
  {
  }
}
