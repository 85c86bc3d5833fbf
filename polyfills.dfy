/**
 * The `isSpace` helper the markdown renderer expects on `window`, and the routine
 * that installs it when it is missing.
 */
module Polyfills {
  import opened Js
  import opened Json

  /** The polyfill: strict equality with space, tab, line feed, vertical tab, form feed or carriage return. */
  predicate IsSpace(code: Value)
  {
    code == Num(0x20) || code == Num(0x09) || code == Num(0x0A) || code == Num(0x0B) || code == Num(0x0C) || code == Num(0x0D)
  }

  /** For numbers, `isSpace` is exactly JavaScript whitespace restricted to ASCII; every other value is rejected. */
  lemma {:induction false} IsSpaceIsAsciiWhitespace(code: Value)
    ensures IsSpace(code) <==> code.Num? && 0 <= code.n < 128 && IsWhitespace(code.n as char)
  {
    if code.Num? && 0 <= code.n < 128 && IsWhitespace(code.n as char) {
      var c := code.n as char;
      assert c == '\t' || c == '\n' || c == '\U{000B}' || c == '\U{000C}' || c == '\r' || c == ' ';
    }
  }

  /** What `window.isSpace` holds: the polyfill, or a function someone else put there first. */
  datatype Handler = Polyfill | Existing(owner: string)

  /** The install-if-absent rule. */
  function Installed(current: Option<Handler>): (r: Option<Handler>)
    ensures current.Some? ==> r == current
    ensures current.None? ==> r == Some(Polyfill)
  {
    if current.None? then Some(Polyfill) else current
  }

  lemma InstalledIdempotent(current: Option<Handler>)
    ensures Installed(Installed(current)) == Installed(current)
    ensures Installed(current).Some?
  {
  }

  class Window {
    /** `window.isSpace`; `None` when it is `undefined`. */
    var isSpace: Option<Handler>

    constructor (isSpace: Option<Handler>)
      ensures this.isSpace == isSpace
    {
      this.isSpace := isSpace;
    }
  }

  /** `addPolyfills`: nothing without a window; an existing `isSpace` is never replaced. */
  method AddPolyfills(window: Option<Window>)
    modifies if window.Some? then {window.value} else {}
    ensures window.Some? ==> window.value.isSpace == Installed(old(window.value.isSpace))
  {
    if window.Some? && window.value.isSpace.None? {
      window.value.isSpace := Some(Polyfill);
    }
  }

  /** Calling `addPolyfills` twice leaves the window as one call does. */
  method AddPolyfillsTwice(window: Option<Window>)
    modifies if window.Some? then {window.value} else {}
    ensures window.Some? ==> window.value.isSpace == Installed(old(window.value.isSpace))
  {
    AddPolyfills(window);
    AddPolyfills(window);
    if window.Some? {
      InstalledIdempotent(old(window.value.isSpace));
    }
  }
}
