# Window actions of the iced GUI toolkit, in Dafny

This project models the window commands of the iced toolkit's native layer
(`native/src/window/action.rs`). An application issues these commands to the
window it runs in. `Action<T>` is a closed set of six commands:

- `Resize` carries a width and a height (`u32`).
- `Move` carries a position (`i32` x and y).
- `SetMode` carries a window `Mode`.
- `FetchMode` carries a callback from the current `Mode` to a result `T`.
- `MoveIMECandidateWindow` carries a position for the input-method candidate window.
- `SetIMEAllow` carries a flag.

The datatype `WindowAction.Action` models the enum at
`native/src/window/action.rs:7-37`, one constructor per variant with the same
fields. The file defines two operations, and both are modelled:

- `map` changes the result type. It composes the `FetchMode` callback with the
  given function. It rebuilds the other five variants with the same fields.
- The `Debug` formatter renders each variant as a fixed text template.

Files:

- `action.dfy` (module `WindowAction`) holds the datatype, `Map`, `Debug` and the lemmas about them.
- `decimal.dfy` (module `Decimal`) renders `u32`, `i32` and `bool` the way Rust's
  `Display` does. It also holds the reader side (numeral values) and the
  unique-split lemmas that let the fields be read back from the text.

Modelling choices:

- `u32` and `i32` are newtypes over `int` with their exact ranges. Map and Debug do
  no arithmetic, so nothing wraps around.
- `Mode` is defined elsewhere in the toolkit. Here it is an opaque type with
  equality, since Rust's `Mode` derives `PartialEq`.
- The formatter takes the text that `Mode`'s own `Debug` produces as a parameter,
  `modeDebug: Mode -> string`.
- The callback is a total Dafny function `Mode -> T`.
- A new closure is never the same value as the old one. So "mapping with the
  identity gives the same command" is stated as `Equivalent`: the same variant,
  the same fields, and callbacks that agree on every mode.
- The `Resize` text labels the width `widget`, not `width`
  (`native/src/window/action.rs:66`). The model keeps that label exactly as written.

## Model

| member | source | states |
|---|---|---|
| `WindowAction.Action.Map` | native/src/window/action.rs:41-58 | The result is the same variant as the input, with identical width/height, x/y, mode or allow fields. For FetchMode, the new callback returns `f(o(s))` for every mode `s`. |
| `WindowAction.MapIdentity` | native/src/window/action.rs:48-57 | Mapping with the identity gives back an equivalent action: same variant, same fields, a callback that agrees everywhere. |
| `WindowAction.MapComposition` | native/src/window/action.rs:48-57 | `a.map(f).map(h)` is equivalent to `a.map(h ∘ f)` for every action. |
| `WindowAction.MapKeepsDebug` | native/src/window/action.rs:48-85 | Mapping never changes an action's diagnostic text. |
| `WindowAction.DebugIgnoresCallback` | native/src/window/action.rs:73 | Every FetchMode renders as the constant `Action::FetchMode`, whatever its callback and result type. |
| `WindowAction.Action.Debug` | native/src/window/action.rs:61-86 | The formatter, written as the source's six templates. It has no contract of its own. Its properties are the lemmas in the rows below: `DebugNamed`, `DebugDeterminesVariant`, the `…DebugFormat` and `…DebugInjective` lemmas, `DebugInjective`, `DebugIgnoresCallback` and `MapKeepsDebug`. |
| `WindowAction.ResizeDebugFormat` | native/src/window/action.rs:64-68 | Resize renders as `Action::Resize { widget: <d>, height: <e> }`. Here `d` and `e` are canonical decimal numerals (digits only, no leading zero) whose values are the width and the height. The width's label is `widget`. |
| `WindowAction.MoveDebugFormat` | native/src/window/action.rs:69-71 | Move renders as `Action::Move { x: <d>, y: <e> }`. Here `d` and `e` are canonical signed numerals whose values are x and y. |
| `WindowAction.MoveIMECandidateWindowDebugFormat` | native/src/window/action.rs:74-80 | MoveIMECandidateWindow renders as `Action::MoveIMECandidateWindow { x: <d>, y: <e> }`, with canonical signed numerals for x and y. |
| `WindowAction.DebugNamed` | native/src/window/action.rs:63-84 | Every text starts with `Action::` and the variant's name. The name ends there: the text stops or continues with a character that is not a letter. |
| `WindowAction.DebugDeterminesVariant` | native/src/window/action.rs:63-84 | Two actions with equal text are the same variant. This holds even when their result types differ. |
| `WindowAction.ResizeDebugInjective` | native/src/window/action.rs:64-68 | Two Resize texts are equal exactly when their widths and heights are equal. |
| `WindowAction.MoveDebugInjective` | native/src/window/action.rs:69-71 | Two Move texts are equal exactly when their x and y are equal. This includes negative coordinates. |
| `WindowAction.SetModeDebugInjective` | native/src/window/action.rs:72 | Two SetMode texts are equal exactly when the modes' own texts are equal. |
| `WindowAction.MoveIMECandidateWindowDebugInjective` | native/src/window/action.rs:74-80 | Two MoveIMECandidateWindow texts are equal exactly when their x and y are equal. |
| `WindowAction.SetIMEAllowDebugInjective` | native/src/window/action.rs:81-83 | Two SetIMEAllow texts are equal exactly when their flags are equal. |
| `WindowAction.DebugInjective` | native/src/window/action.rs:62-85 | Suppose the mode's text tells modes apart. Then two actions have equal text if and only if they are the same variant with the same fields, callbacks aside. So the text contains every field. |
| `Decimal.NatToString` | native/src/window/action.rs:66-67 | The `{}` rendering of an unsigned field: at least one character, all digits, a leading `0` only for zero, one digit exactly below ten. |
| `Decimal.NatToStringRoundTrip` | native/src/window/action.rs:66-67 | Reading the rendered digits back gives the original number. |
| `Decimal.NatToStringInjective` | native/src/window/action.rs:66-67 | Two unsigned numbers render alike if and only if they are equal. |
| `Decimal.CanonicalNumeralIsNatToString` | native/src/window/action.rs:66-67 | Every canonical numeral (at least one digit, no leading zero) is the rendering of its own value. So NatToString writes the only canonical text of each number. |
| `Decimal.IntToString` | native/src/window/action.rs:70 | The `{}` rendering of a signed field. It starts with `-` exactly for negative values, and the rest is digits. The first digit is `0` exactly for zero. |
| `Decimal.IntToStringRoundTrip` | native/src/window/action.rs:70 | Reading a rendered signed number back gives the original value. |
| `Decimal.IntToStringInjective` | native/src/window/action.rs:77-78 | Two signed numbers render alike if and only if they are equal. |
| `Decimal.CanonicalSignedIsIntToString` | native/src/window/action.rs:70 | Every canonical signed numeral is the rendering of its own value. A canonical signed numeral has no leading zero, and no `-0`. |
| `Decimal.BoolToString` | native/src/window/action.rs:82 | The `{}` rendering of the flag is `true` exactly when the flag is set, and `false` otherwise. |

## Left out

- `renderer/src/backend.rs` is not part of this model. That file only forwards each call to one of two external rendering backends, chosen at compile time. Its results (text measurement, hit testing, default sizes) are floating point, and font loading and image and vector-graphics queries are foreign calls.
- The contents of `window::Mode` and its own `Debug` text are defined outside this file. `Mode` is opaque, and its text is the `modeDebug` parameter.
- Rust's bounds on `map` (`'static`, `MaybeSend`, `Sync`) and the boxing of the callback are not modelled. `FnOnce` being callable only once is not modelled either: the callback is an ordinary total function.
- Errors from `fmt::Formatter` (`fmt::Result`) are not modelled. The formatter returns the text it would write.
- How the windowing layer carries out the commands is I/O against the operating system and is not modelled. This includes `Move` being unsupported on Wayland (`native/src/window/action.rs:17`).
- WindowAction.MapIdentity: it states equivalence rather than equality, because the mapped FetchMode holds a new closure. Its callback agrees with the original on every mode.
- WindowAction.Action.Debug: it has no `ensures` of its own. With the name prefix stated in its contract, every proof that unfolds Debug became too costly for the verifier. So the prefix is stated by `DebugNamed`. The SetMode and SetIMEAllow templates are stated only by Debug's definition, together with their injectivity lemmas.
