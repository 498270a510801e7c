/** The `optional<T>` container of `software/baremetal/src/optional.cpp`:
    a value together with a flag saying whether it has been set. */
module Optionals {

  import opened Wrappers

  class Optional<T(0)> {
    /** `_value`; unspecified until a value is set. */
    var value: T
    /** `_has_value`. */
    var hasValue: bool

    /** What the container holds: the value when one has been set,
        nothing otherwise. */
    function Contents(): Option<T>
      reads this
    {
      if hasValue then Some(value) else None
    }

    /** `optional(void)`: no value set; `_value` is left unspecified. */
    constructor Empty()
      ensures Contents() == None
    {
      hasValue := false;
    }

    /** `optional(T value)`: the value is set. */
    constructor (v: T)
      ensures Contents() == Some(v)
    {
      value, hasValue := v, true;
    }

    /** `get_value`: the stored value. It does not check the flag, so
        before any value is set the result is unspecified; once one is
        set it is that value. */
    function GetValue(): (v: T)
      reads this
      ensures Contents().Some? ==> Contents() == Some(v)
    {
      value
    }

    /** `set_value(v)`: whatever was held before, `v` is held now. */
    method SetValue(v: T)
      modifies this
      ensures Contents() == Some(v)
      ensures GetValue() == v && HasValue()
    {
      value := v;
      hasValue := true;
    }

    /** `has_value`: whether a value has been set. */
    function HasValue(): (b: bool)
      reads this
      ensures b <==> Contents() != None
    {
      hasValue
    }
  }
}
