/**
 * Values read back from extension storage. Both the content script and the
 * settings popup read `extensionEnabled` with `!== false`, so the extension
 * is on unless the stored value is exactly the boolean false.
 */
module Settings {

  datatype Option<T> = None | Some(value: T)

  /** What `chrome.storage` returns for a key: nothing, a boolean, or some other value. */
  datatype StoredValue = Absent | BoolValue(b: bool) | OtherValue

  /** `data.extensionEnabled !== false`. */
  predicate IsEnabled(v: StoredValue)
  {
    v != BoolValue(false)
  }

  /**
   * Enabled by default: only a stored `false` turns the extension off;
   * a missing key, `true` or any non-boolean value leaves it on.
   */
  lemma EnabledByDefault(v: StoredValue)
    ensures !IsEnabled(v) <==> v.BoolValue? && !v.b
    ensures IsEnabled(Absent) && IsEnabled(OtherValue) && IsEnabled(BoolValue(true))
  {
  }

  /** `data.key || []` for a stored list: a missing list reads as empty. */
  function ListOrEmpty<T>(v: Option<seq<T>>): seq<T>
  {
    if v.Some? then v.value else []
  }
}
