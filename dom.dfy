/**
 * The part of the page the handlers of script.js touch: elements with a class
 * list, attributes and (for images) a `src`, and the event objects handed to
 * listeners. Elements are objects the handlers update in place.
 */
module Dom {
  import opened Wrappers

  /** The observable state of one element. */
  datatype ElementState = ElementState(classes: set<string>, attrs: map<string, string>, src: string)

  /** `getAttribute(name)`: the attribute's value, or None where the DOM returns null. */
  function Attr(s: ElementState, name: string): Option<string> {
    if name in s.attrs then Some(s.attrs[name]) else None
  }

  /** `String(b)` for a boolean, as `setAttribute` stores it. */
  function BoolString(b: bool): string {
    if b then "true" else "false"
  }

  /** The class list after `classList.toggle(c)`: `c` flips, every other class stays. */
  function Toggled(classes: set<string>, c: string): (r: set<string>)
    ensures c in r <==> c !in classes
    ensures r - {c} == classes - {c}
  {
    if c in classes then classes - {c} else classes + {c}
  }

  /** Toggling the same class twice restores the class list. */
  lemma ToggledTwice(classes: set<string>, c: string)
    ensures Toggled(Toggled(classes, c), c) == classes
  {
    var once := Toggled(classes, c);
    assert (c in Toggled(once, c)) == (c in classes);
    assert Toggled(once, c) - {c} == classes - {c};
  }

  class Element {
    var classes: set<string>
    var attrs: map<string, string>
    var src: string

    constructor (classes: set<string>, attrs: map<string, string>, src: string)
      ensures State() == ElementState(classes, attrs, src)
    {
      this.classes := classes;
      this.attrs := attrs;
      this.src := src;
    }

    function State(): ElementState
      reads this
    {
      ElementState(classes, attrs, src)
    }

    function GetAttribute(name: string): Option<string>
      reads this
    {
      Attr(State(), name)
    }

    /** `classList.add(c)`. */
    method AddClass(c: string)
      modifies this
      ensures State() == old(State()).(classes := old(classes) + {c})
    {
      classes := classes + {c};
    }

    /** `classList.remove(c)`. */
    method RemoveClass(c: string)
      modifies this
      ensures State() == old(State()).(classes := old(classes) - {c})
    {
      classes := classes - {c};
    }

    /** `classList.toggle(c)`: returns whether `c` is present afterwards. */
    method ToggleClass(c: string) returns (present: bool)
      modifies this
      ensures State() == old(State()).(classes := Toggled(old(classes), c))
      ensures present == (c in classes)
    {
      classes := Toggled(classes, c);
      present := c in classes;
    }

    /** `setAttribute(name, value)`. */
    method SetAttribute(name: string, value: string)
      modifies this
      ensures State() == old(State()).(attrs := old(attrs)[name := value])
    {
      attrs := attrs[name := value];
    }

    /** `img.src = value`. */
    method SetSrc(value: string)
      modifies this
      ensures State() == old(State()).(src := value)
    {
      src := value;
    }
  }

  /** The event object passed to a listener: its `key` and whether `preventDefault()` was called. */
  class Event {
    const key: string
    var defaultPrevented: bool

    constructor (key: string)
      ensures this.key == key && !defaultPrevented
    {
      this.key := key;
      defaultPrevented := false;
    }

    method PreventDefault()
      modifies this
      ensures defaultPrevented
    {
      defaultPrevented := true;
    }
  }
}
