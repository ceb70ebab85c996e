/** The commands an application issues to the window it runs in, the map over
    their result type, and their diagnostic (`Debug`) text. */
module WindowAction {
  import opened Decimal

  /** Rust's `u32` and `i32`: the coordinates and sizes the commands carry. */
  newtype u32 = x: int | 0 <= x < 0x1_0000_0000
  newtype i32 = x: int | -0x8000_0000 <= x < 0x8000_0000

  /** The window's display mode. Its variants are defined outside this model. */
  type Mode(==, !new)

  /** A command to one window. `T` is what the application
      receives back when the operation reports a result (only FetchMode does). */
  datatype Action<T> =
    | Resize(width: u32, height: u32)
    | Move(x: i32, y: i32)
    | SetMode(mode: Mode)
    | FetchMode(callback: Mode -> T)
    | MoveIMECandidateWindow(x: i32, y: i32)
    | SetIMEAllow(allow: bool)
  {
    /** Same variant as `other` and, except for the callback of FetchMode,
        the same fields. The callback is allowed a different result type. */
    predicate SameData<A>(other: Action<A>) {
      match (this, other)
      case (Resize(w, h), Resize(w', h')) => w == w' && h == h'
      case (Move(x, y), Move(x', y')) => x == x' && y == y'
      case (SetMode(m), SetMode(m')) => m == m'
      case (FetchMode(_), FetchMode(_)) => true
      case (MoveIMECandidateWindow(x, y), MoveIMECandidateWindow(x', y')) => x == x' && y == y'
      case (SetIMEAllow(b), SetIMEAllow(b')) => b == b'
      case _ => false
    }

    /** Maps the result of the action through `f`: the callback of FetchMode is
        composed with `f`; every other variant is rebuilt with the same fields. */
    function Map<A>(f: T -> A): (r: Action<A>)
      ensures SameData(r)
      ensures r.FetchMode? ==> forall s :: r.callback(s) == f(callback(s))
    {
      match this
      case Resize(width, height) => Resize(width, height)
      case Move(x, y) => Move(x, y)
      case SetMode(mode) => SetMode(mode)
      case FetchMode(o) => FetchMode(s => f(o(s)))
      case SetIMEAllow(allow) => SetIMEAllow(allow)
      case MoveIMECandidateWindow(x, y) => MoveIMECandidateWindow(x, y)
    }

    /** The variant's name as the diagnostic text spells it. */
    function Name(): (n: string)
      ensures |n| >= 1 && forall i :: 0 <= i < |n| ==> IsLetter(n[i])
    {
      match this
      case Resize(_, _) => "Resize"
      case Move(_, _) => "Move"
      case SetMode(_) => "SetMode"
      case FetchMode(_) => "FetchMode"
      case MoveIMECandidateWindow(_, _) => "MoveIMECandidateWindow"
      case SetIMEAllow(_) => "SetIMEAllow"
    }

    /** The diagnostic text of the action. `modeDebug` is the text `Mode` itself
        formats to. The width of Resize is labelled `widget`, as in the source. */
    function Debug(modeDebug: Mode -> string): string
    {
      match this
      case Resize(width, height) =>
        "Action::Resize { widget: " + NatToString(width as int) + ", height: " + NatToString(height as int) + " }"
      case Move(x, y) =>
        "Action::Move { x: " + IntToString(x as int) + ", y: " + IntToString(y as int) + " }"
      case SetMode(mode) =>
        "Action::SetMode(" + modeDebug(mode) + ")"
      case FetchMode(_) =>
        "Action::FetchMode"
      case MoveIMECandidateWindow(x, y) =>
        "Action::MoveIMECandidateWindow { x: " + IntToString(x as int) + ", y: " + IntToString(y as int) + " }"
      case SetIMEAllow(allow) =>
        "Action::SetIMEAllow { allow : " + BoolToString(allow) + " }"
    }
  }

  /** Two actions of the same result type are interchangeable: same variant,
      same fields, and callbacks that agree on every mode. */
  ghost predicate Equivalent<T>(a: Action<T>, b: Action<T>) {
    a.SameData(b) && (a.FetchMode? ==> forall s :: a.callback(s) == b.callback(s))
  }

  /** Mapping with the identity gives back an equivalent action. */
  lemma MapIdentity<T>(a: Action<T>)
    ensures Equivalent(a.Map(x => x), a)
  {
  }

  /** Mapping twice is mapping once with the composed function. */
  lemma MapComposition<T, A, B>(a: Action<T>, f: T -> A, h: A -> B)
    ensures Equivalent(a.Map(f).Map(h), a.Map(x => h(f(x))))
  {
  }

  /** Mapping never changes the diagnostic text. */
  lemma MapKeepsDebug<T, A>(a: Action<T>, f: T -> A, modeDebug: Mode -> string)
    ensures a.Map(f).Debug(modeDebug) == a.Debug(modeDebug)
  {
  }

  /** The text of FetchMode is one constant, whatever the callback. */
  lemma DebugIgnoresCallback<T, A>(o: Mode -> T, o': Mode -> A, modeDebug: Mode -> string)
    ensures FetchMode(o).Debug(modeDebug) == FetchMode(o').Debug(modeDebug) == "Action::FetchMode"
  {
  }

  // The templates of Debug, regrouped so that each field's text starts a suffix;
  // the proofs below split the text at these points.

  lemma ResizeText<T>(w: u32, h: u32, modeDebug: Mode -> string)
    ensures Action<T>.Resize(w, h).Debug(modeDebug)
         == "Action::Resize { widget: " + (NatToString(w as int) + (", height: " + (NatToString(h as int) + " }")))
  {
  }

  lemma MoveText<T>(x: i32, y: i32, modeDebug: Mode -> string)
    ensures Action<T>.Move(x, y).Debug(modeDebug)
         == "Action::Move { x: " + (IntToString(x as int) + (", y: " + (IntToString(y as int) + " }")))
  {
  }

  lemma MoveIMECandidateWindowText<T>(x: i32, y: i32, modeDebug: Mode -> string)
    ensures Action<T>.MoveIMECandidateWindow(x, y).Debug(modeDebug)
         == "Action::MoveIMECandidateWindow { x: " + (IntToString(x as int) + (", y: " + (IntToString(y as int) + " }")))
  {
  }

  lemma SetModeText<T>(m: Mode, modeDebug: Mode -> string)
    ensures Action<T>.SetMode(m).Debug(modeDebug) == "Action::SetMode(" + (modeDebug(m) + ")")
  {
  }

  lemma SetIMEAllowText<T>(b: bool, modeDebug: Mode -> string)
    ensures Action<T>.SetIMEAllow(b).Debug(modeDebug) == "Action::SetIMEAllow { allow : " + (BoolToString(b) + " }")
  {
  }

  // The three templates with numbers, stated with the reader side of the numerals:
  // each number appears as the one canonical decimal numeral of its value.

  lemma ResizeDebugFormat<T>(w: u32, h: u32, modeDebug: Mode -> string)
    ensures exists d, e ::
      IsCanonicalNumeral(d) && NumeralValue(d) == w as int &&
      IsCanonicalNumeral(e) && NumeralValue(e) == h as int &&
      Action<T>.Resize(w, h).Debug(modeDebug) == "Action::Resize { widget: " + d + ", height: " + e + " }"
  {
    var d, e := NatToString(w as int), NatToString(h as int);
    NatToStringRoundTrip(w as int);
    NatToStringRoundTrip(h as int);
    assert IsCanonicalNumeral(d) && IsCanonicalNumeral(e);
  }

  lemma MoveDebugFormat<T>(x: i32, y: i32, modeDebug: Mode -> string)
    ensures exists d, e ::
      IsCanonicalSigned(d) && SignedNumeralValue(d) == x as int &&
      IsCanonicalSigned(e) && SignedNumeralValue(e) == y as int &&
      Action<T>.Move(x, y).Debug(modeDebug) == "Action::Move { x: " + d + ", y: " + e + " }"
  {
    var d, e := IntToString(x as int), IntToString(y as int);
    IntToStringCanonical(x as int);
    IntToStringCanonical(y as int);
    IntToStringRoundTrip(x as int);
    IntToStringRoundTrip(y as int);
  }

  lemma MoveIMECandidateWindowDebugFormat<T>(x: i32, y: i32, modeDebug: Mode -> string)
    ensures exists d, e ::
      IsCanonicalSigned(d) && SignedNumeralValue(d) == x as int &&
      IsCanonicalSigned(e) && SignedNumeralValue(e) == y as int &&
      Action<T>.MoveIMECandidateWindow(x, y).Debug(modeDebug)
        == "Action::MoveIMECandidateWindow { x: " + d + ", y: " + e + " }"
  {
    var d, e := IntToString(x as int), IntToString(y as int);
    IntToStringCanonical(x as int);
    IntToStringCanonical(y as int);
    IntToStringRoundTrip(x as int);
    IntToStringRoundTrip(y as int);
  }

  predicate IsLetter(c: char) {
    'A' <= c <= 'Z' || 'a' <= c <= 'z'
  }

  /** `s` starts with "Action::" and `name`, and the name ends there: the text
      stops or goes on with something other than a letter. */
  predicate NamedBy(s: string, name: string) {
    "Action::" + name <= s && (|s| == 8 + |name| || !IsLetter(s[8 + |name|]))
  }

  /** A head naming `name` keeps naming it whatever follows. */
  lemma HeadThenRest(name: string, head: string, rest: string)
    requires "Action::" + name <= head && |head| > 8 + |name| && !IsLetter(head[8 + |name|])
    ensures NamedBy(head + rest, name)
  {
    assert (head + rest)[8 + |name|] == head[8 + |name|];
    assert (head + rest)[..|"Action::" + name|] == head[..|"Action::" + name|];
  }

  lemma ResizeNamed<T>(w: u32, h: u32, modeDebug: Mode -> string)
    ensures NamedBy(Action<T>.Resize(w, h).Debug(modeDebug), "Resize")
  {
    ResizeText<T>(w, h, modeDebug);
    HeadThenRest("Resize", "Action::Resize { widget: ", NatToString(w as int) + (", height: " + (NatToString(h as int) + " }")));
  }

  lemma MoveNamed<T>(x: i32, y: i32, modeDebug: Mode -> string)
    ensures NamedBy(Action<T>.Move(x, y).Debug(modeDebug), "Move")
  {
    MoveText<T>(x, y, modeDebug);
    HeadThenRest("Move", "Action::Move { x: ", IntToString(x as int) + (", y: " + (IntToString(y as int) + " }")));
  }

  lemma MoveIMECandidateWindowHead()
    ensures NamedBy("Action::MoveIMECandidateWindow { x: ", "MoveIMECandidateWindow")
  {
  }

  lemma MoveIMECandidateWindowNamed<T>(x: i32, y: i32, modeDebug: Mode -> string)
    ensures NamedBy(Action<T>.MoveIMECandidateWindow(x, y).Debug(modeDebug), "MoveIMECandidateWindow")
  {
    MoveIMECandidateWindowText<T>(x, y, modeDebug);
    MoveIMECandidateWindowHead();
    HeadThenRest("MoveIMECandidateWindow", "Action::MoveIMECandidateWindow { x: ",
      IntToString(x as int) + (", y: " + (IntToString(y as int) + " }")));
  }

  lemma SetModeNamed<T>(m: Mode, modeDebug: Mode -> string)
    ensures NamedBy(Action<T>.SetMode(m).Debug(modeDebug), "SetMode")
  {
    SetModeText<T>(m, modeDebug);
    HeadThenRest("SetMode", "Action::SetMode(", modeDebug(m) + ")");
  }

  lemma SetIMEAllowNamed<T>(b: bool, modeDebug: Mode -> string)
    ensures NamedBy(Action<T>.SetIMEAllow(b).Debug(modeDebug), "SetIMEAllow")
  {
    SetIMEAllowText<T>(b, modeDebug);
    HeadThenRest("SetIMEAllow", "Action::SetIMEAllow { allow : ", BoolToString(b) + " }");
  }

  /** Every diagnostic text starts with "Action::" and the variant's name, and
      the name ends there. */
  lemma DebugNamed<T>(a: Action<T>, modeDebug: Mode -> string)
    ensures NamedBy(a.Debug(modeDebug), a.Name())
  {
    match a
    case Resize(w, h) => ResizeNamed<T>(w, h, modeDebug);
    case Move(x, y) => MoveNamed<T>(x, y, modeDebug);
    case SetMode(m) => SetModeNamed<T>(m, modeDebug);
    case FetchMode(_) =>
    case MoveIMECandidateWindow(x, y) => MoveIMECandidateWindowNamed<T>(x, y, modeDebug);
    case SetIMEAllow(b) => SetIMEAllowNamed<T>(b, modeDebug);
  }

  /** Where the characters of a text come from, given one of its prefixes. */
  lemma PrefixAt(p: string, s: string, k: int)
    ensures p <= s && 0 <= k < |p| ==> s[k] == p[k]
  {
  }

  /** A text names at most one all-letter name. */
  lemma NamedByUnique(s: string, n1: string, n2: string)
    requires NamedBy(s, n1) && NamedBy(s, n2)
    requires forall i :: 0 <= i < |n1| ==> IsLetter(n1[i])
    requires forall i :: 0 <= i < |n2| ==> IsLetter(n2[i])
    ensures n1 == n2
  {
    var p1, p2 := "Action::" + n1, "Action::" + n2;
    if |n1| < |n2| {
      PrefixAt(p2, s, 8 + |n1|);
      ConcatAt("Action::", n2, 8 + |n1|);
      assert false;
    } else if |n2| < |n1| {
      PrefixAt(p1, s, 8 + |n2|);
      ConcatAt("Action::", n1, 8 + |n2|);
      assert false;
    }
    assert p1 == s[..|p1|] == p2;
    assert n1 == p1[8..] && n2 == p2[8..];
  }

  /** Equal diagnostic text means the same variant. */
  lemma DebugDeterminesVariant<T, A>(a: Action<T>, b: Action<A>, modeDebug: Mode -> string)
    requires a.Debug(modeDebug) == b.Debug(modeDebug)
    ensures a.Name() == b.Name()
  {
    DebugNamed(a, modeDebug);
    DebugNamed(b, modeDebug);
    NamedByUnique(a.Debug(modeDebug), a.Name(), b.Name());
  }

  // Each field can be read back from the text: equal texts mean equal fields.

  lemma ResizeDebugInjective<T>(w: u32, h: u32, w': u32, h': u32, modeDebug: Mode -> string)
    ensures Action<T>.Resize(w, h).Debug(modeDebug) == Action<T>.Resize(w', h').Debug(modeDebug)
        <==> w == w' && h == h'
  {
    if Action<T>.Resize(w, h).Debug(modeDebug) == Action<T>.Resize(w', h').Debug(modeDebug) {
      ResizeText<T>(w, h, modeDebug);
      ResizeText<T>(w', h', modeDebug);
      var n, n' := NatToString(w as int), NatToString(w' as int);
      var k, k' := NatToString(h as int), NatToString(h' as int);
      var t, t' := ", height: " + (k + " }"), ", height: " + (k' + " }");
      StripPrefix("Action::Resize { widget: ", n + t, n' + t');
      NumeralPrefixUnique(n, t, n', t');
      StripPrefix(", height: ", k + " }", k' + " }");
      NumeralPrefixUnique(k, " }", k', " }");
      NatToStringInjective(w as int, w' as int);
      NatToStringInjective(h as int, h' as int);
    }
  }

  /** Move and MoveIMECandidateWindow share the text after the name. */
  lemma CoordinatesInjective(p: string, x: i32, y: i32, x': i32, y': i32)
    requires p + (IntToString(x as int) + (", y: " + (IntToString(y as int) + " }")))
          == p + (IntToString(x' as int) + (", y: " + (IntToString(y' as int) + " }")))
    ensures x == x' && y == y'
  {
    var i, i' := IntToString(x as int), IntToString(x' as int);
    var j, j' := IntToString(y as int), IntToString(y' as int);
    var t, t' := ", y: " + (j + " }"), ", y: " + (j' + " }");
    StripPrefix(p, i + t, i' + t');
    SignedPrefixUnique(x as int, t, x' as int, t');
    StripPrefix(", y: ", j + " }", j' + " }");
    SignedPrefixUnique(y as int, " }", y' as int, " }");
  }

  lemma MoveDebugInjective<T>(x: i32, y: i32, x': i32, y': i32, modeDebug: Mode -> string)
    ensures Action<T>.Move(x, y).Debug(modeDebug) == Action<T>.Move(x', y').Debug(modeDebug)
        <==> x == x' && y == y'
  {
    if Action<T>.Move(x, y).Debug(modeDebug) == Action<T>.Move(x', y').Debug(modeDebug) {
      MoveText<T>(x, y, modeDebug);
      MoveText<T>(x', y', modeDebug);
      CoordinatesInjective("Action::Move { x: ", x, y, x', y');
    }
  }

  lemma MoveIMECandidateWindowDebugInjective<T>(x: i32, y: i32, x': i32, y': i32, modeDebug: Mode -> string)
    ensures Action<T>.MoveIMECandidateWindow(x, y).Debug(modeDebug)
         == Action<T>.MoveIMECandidateWindow(x', y').Debug(modeDebug)
        <==> x == x' && y == y'
  {
    if Action<T>.MoveIMECandidateWindow(x, y).Debug(modeDebug) == Action<T>.MoveIMECandidateWindow(x', y').Debug(modeDebug) {
      MoveIMECandidateWindowText<T>(x, y, modeDebug);
      MoveIMECandidateWindowText<T>(x', y', modeDebug);
      CoordinatesInjective("Action::MoveIMECandidateWindow { x: ", x, y, x', y');
    }
  }

  lemma SetModeDebugInjective<T>(m: Mode, m': Mode, modeDebug: Mode -> string)
    ensures Action<T>.SetMode(m).Debug(modeDebug) == Action<T>.SetMode(m').Debug(modeDebug)
        <==> modeDebug(m) == modeDebug(m')
  {
    if Action<T>.SetMode(m).Debug(modeDebug) == Action<T>.SetMode(m').Debug(modeDebug) {
      SetModeText<T>(m, modeDebug);
      SetModeText<T>(m', modeDebug);
      StripPrefix("Action::SetMode(", modeDebug(m) + ")", modeDebug(m') + ")");
      StripSuffix(modeDebug(m), modeDebug(m'), ")");
    }
  }

  lemma SetIMEAllowDebugInjective<T>(b: bool, b': bool, modeDebug: Mode -> string)
    ensures Action<T>.SetIMEAllow(b).Debug(modeDebug) == Action<T>.SetIMEAllow(b').Debug(modeDebug) <==> b == b'
  {
    if Action<T>.SetIMEAllow(b).Debug(modeDebug) == Action<T>.SetIMEAllow(b').Debug(modeDebug) {
      SetIMEAllowText<T>(b, modeDebug);
      SetIMEAllowText<T>(b', modeDebug);
      StripPrefix("Action::SetIMEAllow { allow : ", BoolToString(b) + " }", BoolToString(b') + " }");
      StripSuffix(BoolToString(b), BoolToString(b'), " }");
    }
  }

  /** When the text of `Mode` tells modes apart, the diagnostic text tells actions
      apart up to their callbacks: every field of every variant is in it. */
  lemma DebugInjective<T>(a: Action<T>, b: Action<T>, modeDebug: Mode -> string)
    requires forall m, m' :: modeDebug(m) == modeDebug(m') ==> m == m'
    ensures a.Debug(modeDebug) == b.Debug(modeDebug) <==> a.SameData(b)
  {
    if a.Debug(modeDebug) == b.Debug(modeDebug) {
      DebugDeterminesVariant(a, b, modeDebug);
      match a
      case Resize(w, h) => ResizeDebugInjective<T>(w, h, b.width, b.height, modeDebug);
      case Move(x, y) => MoveDebugInjective<T>(x, y, b.x, b.y, modeDebug);
      case SetMode(m) => SetModeDebugInjective<T>(m, b.mode, modeDebug);
      case FetchMode(_) =>
      case MoveIMECandidateWindow(x, y) => MoveIMECandidateWindowDebugInjective<T>(x, y, b.x, b.y, modeDebug);
      case SetIMEAllow(v) => SetIMEAllowDebugInjective<T>(v, b.allow, modeDebug);
    }
  }
}
