/** The theme toggle: the `light` class on the root element, mirrored into
    the `theme` entry of local storage and into the `.theme-toggle` button's
    label. */
module Theme {

  datatype Option<T> = None | Some(value: T)

  /** The label shown while the page is light (offering dark) ... */
  const Moon := "\U{1F319}"
  /** ... and while it is dark (offering light). */
  const Sun := "\U{2600}\U{FE0F}"

  /** The stored preference for a mode. */
  function StoredValue(light: bool): (v: string)
    ensures v == "light" || v == "dark"
  {
    if light then "light" else "dark"
  }

  /** The button label for a mode. */
  function Label(light: bool): (l: string)
    ensures l == Moon <==> light
  {
    if light then Moon else Sun
  }

  /** Page load adds the class exactly when the stored value is "light". */
  predicate LoadsLight(stored: Option<string>)
    ensures LoadsLight(stored) <==> stored == Some(StoredValue(true))
  {
    stored == Some("light")
  }

  /** What a toggle stores is read back as the same mode on the next load. */
  lemma StoredRoundTrip(light: bool)
    ensures LoadsLight(Some(StoredValue(light))) == light
  {
  }

  /** The mode after `n` toggles from `light`. */
  function Toggled(light: bool, n: nat): bool {
    if n == 0 then light else !Toggled(light, n - 1)
  }

  /** An even number of toggles returns to the starting mode, an odd number
      flips it. */
  lemma {:induction false} ToggleParity(light: bool, n: nat)
    ensures Toggled(light, n) == (if n % 2 == 0 then light else !light)
  {
    if n > 0 {
      ToggleParity(light, n - 1);
    }
  }

  class ThemeToggle {
    /** Whether the page has a `.theme-toggle` button; without one there is
        no click handler and no label. */
    const hasButton: bool
    /** The `light` class on the root element. */
    var light: bool
    /** `localStorage.getItem('theme')`. */
    var stored: Option<string>
    /** The button's `textContent`. */
    var buttonText: string

    /** The three agree: what was stored is what is shown. */
    ghost predicate Mirrored()
      reads this
    {
      stored == Some(StoredValue(light)) && (hasButton ==> buttonText == Label(light))
    }

    /** Page load. `classList.add` only adds, so a `light` class already in
        the markup stays; the label follows the stored value alone. */
    constructor Load(stored: Option<string>, markupLight: bool, hasButton: bool, markupLabel: string)
      ensures this.hasButton == hasButton && this.stored == stored
      ensures light == (markupLight || LoadsLight(stored))
      ensures buttonText == if hasButton then Label(LoadsLight(stored)) else markupLabel
    {
      this.hasButton := hasButton;
      this.stored := stored;
      light := markupLight;
      buttonText := markupLabel;
      new;
      if stored == Some("light") {
        light := true;
        if hasButton { buttonText := Moon; }
      } else {
        if hasButton { buttonText := Sun; }
      }
    }

    /** A click on the button: flip the class, store the new mode, relabel. */
    method Toggle()
      requires hasButton
      modifies this
      ensures light == !old(light)
      ensures Mirrored()
    {
      light := !light;
      stored := Some(if light then "light" else "dark");
      buttonText := if light then Moon else Sun;
    }
  }
}
