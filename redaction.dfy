/** The `Sensitive<T>` wrapper of the chat server and its `Display` implementation:
    while the safe-mode flag is set, a wrapped value is rendered as a fixed
    placeholder instead of its own text, so that it cannot leak into the logs. */
module Redaction {

  /** The server's `SAFE_MODE` flag, fixed at compile time. */
  const SafeMode: bool := true

  /** The text written in place of a wrapped value. */
  const Placeholder: string := "[CENSORED]"

  /** `Sensitive { value }`; `Sensitive::new(value)` is this constructor. */
  datatype Sensitive<T> = Sensitive(value: T)

  /** What `Sensitive::fmt` writes for a given setting of the flag: a `writeln!` of
      either the placeholder or the value. `show` is the wrapped type's own
      `Display` rendering, which lies outside this model. */
  function Render<T>(s: Sensitive<T>, safeMode: bool, show: T -> string): (r: string)
    ensures |r| > 0 && r[|r| - 1] == '\n'
    ensures safeMode ==> r == "[CENSORED]\n"
    ensures !safeMode ==> r[..|r| - 1] == show(s.value)
  {
    if safeMode then Placeholder + "\n" else show(s.value) + "\n"
  }

  /** The rendering the server actually produces, with `SAFE_MODE` as compiled in. */
  function Display<T>(s: Sensitive<T>, show: T -> string): (r: string)
    ensures r == "[CENSORED]\n"
  {
    Render(s, SafeMode, show)
  }

  /** In safe mode the rendering says nothing about the wrapped value: any two
      values, rendered with any two `Display`s, give the same text. */
  lemma SafeModeHidesValue<T, U>(a: Sensitive<T>, showA: T -> string, b: Sensitive<U>, showB: U -> string)
    ensures Render(a, true, showA) == Render(b, true, showB)
  {
  }

  /** With safe mode off the rendering is faithful: two values render alike exactly
      when their own texts agree, so the value's text can be recovered from it. */
  lemma PlainModeRevealsValue<T>(a: Sensitive<T>, b: Sensitive<T>, show: T -> string)
    ensures Render(a, false, show) == Render(b, false, show) <==> show(a.value) == show(b.value)
  {
  }
}
