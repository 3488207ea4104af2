/**
 * The web-view bridge for status-bar directives: a message whose name is
 * `status-bar.<action>...` is handled, and at most one of the host's setters
 * is called (or a warning logged); any other message is left to the next
 * handler.
 */
module StatusBarMessage {
  import opened Wrappers

  /** The JavaScript values a message field can hold, as far as dispatch tells them apart. */
  datatype JsValue = Undefined | Null | Bool(b: bool) | Number(n: int) | Str(s: string) | Object

  /**
   * The `data` of an inbound message: its `name`, and its `args` array, None
   * when `args` is undefined or null.
   */
  datatype Message = Message(name: JsValue, args: Option<seq<JsValue>>)

  /** The host's status-bar styles. */
  datatype StatusBarStyle = Auto | Inverted | Light | Dark

  /** A call into the host: one of the two setters, or the warning sink. */
  datatype Effect = SetStyle(style: StatusBarStyle) | SetBackground(color: JsValue, animated: bool) | Warn(message: string)

  /**
   * What a call does: it returns `handled` after performing `effects`, or it
   * throws a TypeError because `args` is undefined or null when read.
   */
  datatype Outcome = Returned(handled: bool, effects: seq<Effect>) | Threw

  const Prefix: string := "status-bar."
  const StyleAction: string := "setStatusBarStyle"
  const BackgroundAction: string := "setStatusBarBackgroundColor"
  const InvalidStyle: string := "Invalid status bar style"
  const InvalidAction: string := "Invalid status bar action type"

  predicate StartsWith(s: string, p: string) {
    |p| <= |s| && s[..|p|] == p
  }

  /** String.prototype.split with a one-character separator. */
  function Split(s: string, sep: char): (r: seq<string>)
    ensures |r| >= 1
    ensures forall i :: 0 <= i < |r| ==> sep !in r[i]
    decreases |s|
  {
    if |s| == 0 then [""]
    else
      var rest := Split(s[1..], sep);
      if s[0] == sep then [""] + rest else [[s[0]] + rest[0]] + rest[1..]
  }

  /** Array.prototype.join, the inverse of Split. */
  function Join(parts: seq<string>, sep: char): string
    requires |parts| >= 1
    decreases |parts|
  {
    if |parts| == 1 then parts[0] else parts[0] + [sep] + Join(parts[1..], sep)
  }

  /** Joining the segments of a split gives the string back. */
  lemma {:induction false} JoinSplit(s: string, sep: char)
    ensures Join(Split(s, sep), sep) == s
    decreases |s|
  {
    if |s| > 0 {
      JoinSplit(s[1..], sep);
      var rest := Split(s[1..], sep);
      if s[0] != sep {
        if |rest| == 1 {
          assert s == [s[0]] + rest[0];
        } else {
          assert Join(rest, sep) == rest[0] + [sep] + Join(rest[1..], sep);
          assert s == [s[0]] + s[1..];
        }
      }
    }
  }

  /** Splitting a join of separator-free segments gives the segments back. */
  lemma {:induction false} SplitJoin(parts: seq<string>, sep: char)
    requires |parts| >= 1
    requires forall i :: 0 <= i < |parts| ==> sep !in parts[i]
    ensures Split(Join(parts, sep), sep) == parts
    decreases |parts|
  {
    if |parts| == 1 {
      SplitNoSeparator(parts[0], sep);
    } else {
      SplitJoin(parts[1..], sep);
      SplitAfterSegment(parts[0], Join(parts[1..], sep), sep);
      assert parts == [parts[0]] + parts[1..];
    }
  }

  /** A string without the separator splits into itself. */
  lemma {:induction false} SplitNoSeparator(s: string, sep: char)
    requires sep !in s
    ensures Split(s, sep) == [s]
    decreases |s|
  {
    if |s| > 0 {
      SplitNoSeparator(s[1..], sep);
      assert [s[0]] + s[1..] == s;
    }
  }

  /** A separator-free head segment comes off first. */
  lemma {:induction false} SplitAfterSegment(p: string, t: string, sep: char)
    requires sep !in p
    ensures Split(p + [sep] + t, sep) == [p] + Split(t, sep)
    decreases |p|
  {
    if |p| == 0 {
      assert p + [sep] + t == [sep] + t;
      assert ([sep] + t)[1..] == t;
    } else {
      SplitAfterSegment(p[1..], t, sep);
      assert (p + [sep] + t)[1..] == p[1..] + [sep] + t;
      assert [p[0]] + p[1..] == p;
    }
  }

  /** A prefixed name splits into `status-bar` followed by the segments of the rest. */
  lemma PrefixedSplit(name: string)
    requires StartsWith(name, Prefix)
    ensures Split(name, '.') == ["status-bar"] + Split(name[|Prefix|..], '.')
  {
    assert name == "status-bar" + ['.'] + name[|Prefix|..];
    SplitAfterSegment("status-bar", name[|Prefix|..], '.');
  }

  /** The action: the second `.`-separated segment of a `status-bar.` name. */
  function ActionType(name: string): (action: string)
    requires StartsWith(name, Prefix)
    ensures '.' !in action
    ensures action == Split(name[|Prefix|..], '.')[0]
  {
    PrefixedSplit(name);
    Split(name, '.')[1]
  }

  /**
   * The action is the part of the name after `status-bar.` up to the next
   * dot: the whole rest when it has no dot, and the head segment otherwise.
   */
  lemma {:induction false} ActionTypeOf(action: string, tail: Option<string>)
    requires '.' !in action
    ensures var name := Prefix + action + (if tail.Some? then "." + tail.value else "");
      StartsWith(name, Prefix) && ActionType(name) == action
  {
    var name := Prefix + action + (if tail.Some? then "." + tail.value else "");
    assert name[..|Prefix|] == Prefix;
    assert name[|Prefix|..] == action + (if tail.Some? then "." + tail.value else "");
    PrefixedSplit(name);
    match tail
    case None =>
      assert name[|Prefix|..] == action;
      SplitNoSeparator(action, '.');
    case Some(t) =>
      assert name[|Prefix|..] == action + ['.'] + t;
      SplitAfterSegment(action, t, '.');
  }

  /** `args[0]`, undefined for an empty array. */
  function FirstArg(args: seq<JsValue>): (v: JsValue)
    ensures |args| == 0 ==> v == Undefined
    ensures |args| > 0 ==> v == args[0]
  {
    if |args| > 0 then args[0] else Undefined
  }

  /** The name is a string carrying the status-bar prefix. */
  predicate IsStatusBarName(name: JsValue): (b: bool)
    ensures !name.Str? ==> !b
    ensures b ==> |name.s| >= |Prefix| && name.s[..|Prefix|] == Prefix
    ensures name.Str? && |name.s| >= |Prefix| && name.s[..|Prefix|] == Prefix ==> b
  {
    name.Str? && StartsWith(name.s, Prefix)
  }

  /** The dispatch, with its effects returned in the order they happen. */
  function ProcessStatusBarMessage(msg: Message): (out: Outcome)
    ensures !IsStatusBarName(msg.name) ==> out == Returned(false, [])
    ensures IsStatusBarName(msg.name) ==> out.Threw? || out.handled
    ensures out.Returned? ==> |out.effects| <= 1
    ensures out.Threw? <==> (IsStatusBarName(msg.name) && msg.args.None? &&
      ActionType(msg.name.s) in {StyleAction, BackgroundAction})
    ensures out.Returned? && |out.effects| == 1 && out.effects[0].SetStyle? ==>
      ActionType(msg.name.s) == StyleAction &&
      FirstArg(msg.args.value) == Str(if out.effects[0].style == Dark then "dark" else "light") &&
      out.effects[0].style in {Dark, Light}
    ensures out.Returned? && |out.effects| == 1 && out.effects[0].SetBackground? ==>
      ActionType(msg.name.s) == BackgroundAction &&
      out.effects[0] == SetBackground(FirstArg(msg.args.value), true)
    ensures out.Returned? && out.handled ==> |out.effects| == 1
  {
    if IsStatusBarName(msg.name) then
      var action := ActionType(msg.name.s);
      if action == StyleAction then
        if msg.args.None? then Threw
        else
          var style := FirstArg(msg.args.value);
          if style == Str("dark") then Returned(true, [SetStyle(Dark)])
          else if style == Str("light") then Returned(true, [SetStyle(Light)])
          else Returned(true, [Warn(InvalidStyle)])
      else if action == BackgroundAction then
        if msg.args.None? then Threw
        else Returned(true, [SetBackground(FirstArg(msg.args.value), true)])
      else Returned(true, [Warn(InvalidAction)])
    else Returned(false, [])
  }

  /** A style directive sets exactly the style named by `args[0]`, and warns on anything else. */
  lemma StyleDirective(tail: Option<string>, args: seq<JsValue>)
    ensures var name := Prefix + StyleAction + (if tail.Some? then "." + tail.value else "");
      ProcessStatusBarMessage(Message(Str(name), Some(args))) == Returned(true,
        if FirstArg(args) == Str("dark") then [SetStyle(Dark)]
        else if FirstArg(args) == Str("light") then [SetStyle(Light)]
        else [Warn(InvalidStyle)])
  {
    ActionTypeOf(StyleAction, tail);
  }

  /** A background directive sets the colour in `args[0]`, animated. */
  lemma BackgroundDirective(tail: Option<string>, args: seq<JsValue>)
    ensures var name := Prefix + BackgroundAction + (if tail.Some? then "." + tail.value else "");
      ProcessStatusBarMessage(Message(Str(name), Some(args))) ==
      Returned(true, [SetBackground(FirstArg(args), true)])
  {
    ActionTypeOf(BackgroundAction, tail);
  }

  /** Any other action, the empty one of `status-bar.` included, only warns. */
  lemma OtherAction(action: string, tail: Option<string>, args: Option<seq<JsValue>>)
    requires '.' !in action && action != StyleAction && action != BackgroundAction
    ensures var name := Prefix + action + (if tail.Some? then "." + tail.value else "");
      ProcessStatusBarMessage(Message(Str(name), args)) == Returned(true, [Warn(InvalidAction)])
  {
    ActionTypeOf(action, tail);
  }

  /** Worked example: `status-bar.setStatusBarStyle` with 'dark' sets the style. */
  lemma ExampleDark()
    ensures ProcessStatusBarMessage(Message(Str(Prefix + StyleAction), Some([Str("dark")]))) ==
      Returned(true, [SetStyle(Dark)])
  {
    StyleDirective(None, [Str("dark")]);
    assert Prefix + StyleAction + "" == Prefix + StyleAction;
  }

  /** Worked example: `status-bar.setStatusBarStyle` with 'purple' only warns. */
  lemma ExamplePurple()
    ensures ProcessStatusBarMessage(Message(Str(Prefix + StyleAction), Some([Str("purple")]))) ==
      Returned(true, [Warn(InvalidStyle)])
  {
    StyleDirective(None, [Str("purple")]);
    assert Prefix + StyleAction + "" == Prefix + StyleAction;
  }

  /** Worked example: 'other.thing' is not handled. */
  lemma ExampleOther()
    ensures ProcessStatusBarMessage(Message(Str("other.thing"), None)) == Returned(false, [])
  {
    assert "other.thing"[..|Prefix|][0] != Prefix[0];
  }
}
