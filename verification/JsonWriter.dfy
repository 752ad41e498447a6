/** The object tree of canonical JSON, its recursive printer, and the streaming writer. */
module JsonWriter {
  import opened Bytes
  import opened Hex
  import opened Decimals
  import opened JsonText

  datatype Json =
    | Str(text: bytes)
    | HexStr(octets: bytes)
    | Num(n: nat)
    | Bool(v: bool)
    | Null
    | Arr(items: seq<Json>)
    | Obj(members: seq<Member>)

  datatype Member = Member(key: bytes, value: Json)

  const COMMA: byte := 44

  /** The recursive printer. */
  function Print(j: Json): bytes
    decreases j, 1
  {
    match j
    case Str(t) => Quoted(t)
    case HexStr(b) => [QUOTE] + ToHex(b) + [QUOTE]
    case Num(n) => Decimal(n)
    case Bool(v) => if v then [116, 114, 117, 101] else [102, 97, 108, 115, 101]
    case Null => [110, 117, 108, 108]
    case Arr(items) => [91] + PrintItems(items, true) + [93]
    case Obj(members) => [123] + PrintMembers(members, true) + [125]
  }

  function Separator(first: bool): bytes {
    if first then [] else [COMMA]
  }

  function PrintItems(items: seq<Json>, first: bool): bytes
    decreases items, 0
  {
    if items == [] then [] else Separator(first) + Print(items[0]) + PrintItems(items[1..], false)
  }

  function PrintMembers(members: seq<Member>, first: bool): bytes
    decreases members, 0
  {
    if members == [] then [] else Separator(first) + PrintMember(members[0]) + PrintMembers(members[1..], false)
  }

  function PrintMember(m: Member): bytes
    decreases m, 2
  {
    Quoted(m.key) + [58] + Print(m.value)
  }

  lemma {:induction false} ItemsAppend(items: seq<Json>, first: bool, j: Json)
    ensures PrintItems(items + [j], first) == PrintItems(items, first) + Separator(first && items == []) + Print(j)
    decreases |items|
  {
    hide Print;
    var all := items + [j];
    if items == [] {
      assert all[1..] == [];
      assert PrintItems(all, first) == Separator(first) + Print(j) + [];
    } else {
      assert all[1..] == items[1..] + [j];
      ItemsAppend(items[1..], false, j);
      Associative(Separator(first) + Print(items[0]), PrintItems(items[1..], false) + [COMMA], Print(j));
      Associative(Separator(first) + Print(items[0]), PrintItems(items[1..], false), [COMMA]);
    }
  }

  lemma {:induction false} MembersAppend(members: seq<Member>, first: bool, m: Member)
    ensures PrintMembers(members + [m], first) ==
            PrintMembers(members, first) + Separator(first && members == []) + PrintMember(m)
    decreases |members|
  {
    hide PrintMember;
    var all := members + [m];
    if members == [] {
      assert all[1..] == [];
      assert PrintMembers(all, first) == Separator(first) + PrintMember(m) + [];
    } else {
      assert all[1..] == members[1..] + [m];
      MembersAppend(members[1..], false, m);
      Associative(Separator(first) + PrintMember(members[0]), PrintMembers(members[1..], false) + [COMMA], PrintMember(m));
      Associative(Separator(first) + PrintMember(members[0]), PrintMembers(members[1..], false), [COMMA]);
    }
  }

  // ---------------------------------------------------------------------
  // Open containers
  // ---------------------------------------------------------------------

  /** A container that has been opened: its completed children so far. */
  datatype Frame =
    | Roots(items: seq<Json>)
    | OpenArray(key: bytes, items: seq<Json>)
    | OpenObject(members: seq<Member>)

  function Content(f: Frame): bytes {
    if f.OpenObject? then PrintMembers(f.members, true) else PrintItems(f.items, true)
  }

  predicate Empty(f: Frame) {
    if f.OpenObject? then f.members == [] else f.items == []
  }

  function Opener(f: Frame): bytes {
    match f
    case Roots(_) => []
    case OpenArray(key, _) => Quoted(key) + [58] + [91]
    case OpenObject(_) => [123]
  }

  /** Objects open at the root or in arrays, arrays open as fields of objects. */
  predicate Nested(frames: seq<Frame>) {
    && frames != [] && frames[0].Roots?
    && forall i :: 1 <= i < |frames| ==> Fits(frames[i - 1], frames[i])
  }

  predicate Fits(parent: Frame, child: Frame) {
    if parent.OpenObject? then child.OpenArray? else child.OpenObject?
  }

  /** The text written when `frames` are open. */
  function Rendered(frames: seq<Frame>): bytes
    requires frames != []
  {
    if |frames| == 1 then Content(frames[0])
    else
      var n := |frames| - 1;
      Rendered(frames[..n]) + Separator(Empty(frames[n - 1])) + Opener(frames[n]) + Content(frames[n])
  }

  function AddItem(f: Frame, j: Json): Frame
    requires !f.OpenObject?
  {
    f.(items := f.items + [j])
  }

  function AddMember(f: Frame, m: Member): Frame
    requires f.OpenObject?
  {
    f.(members := f.members + [m])
  }

  lemma AddItemContent(f: Frame, j: Json)
    requires !f.OpenObject?
    ensures Content(AddItem(f, j)) == Content(f) + Separator(Empty(f)) + Print(j)
  {
    ItemsAppend(f.items, true, j);
  }

  lemma AddMemberContent(f: Frame, m: Member)
    requires f.OpenObject?
    ensures Content(AddMember(f, m)) == Content(f) + Separator(Empty(f)) + PrintMember(m)
  {
    MembersAppend(f.members, true, m);
  }

  /** Replacing the innermost frame by one with longer content extends the text accordingly. */
  lemma LastFrameGrows(frames: seq<Frame>, f: Frame, more: bytes)
    requires frames != []
    requires var last := frames[|frames| - 1]; Opener(f) == Opener(last) && Content(f) == Content(last) + more
    ensures Rendered(frames[|frames| - 1 := f]) == Rendered(frames) + more
  {
    hide Content, Opener;
    var n := |frames| - 1;
    var changed := frames[n := f];
    if n > 0 {
      assert changed[..n] == frames[..n];
      Associative(Rendered(frames[..n]) + Separator(Empty(frames[n - 1])) + Opener(f), Content(frames[n]), more);
    }
  }

  /** Opening a container writes a separator and the opener. */
  lemma OpenRenders(frames: seq<Frame>, f: Frame)
    requires frames != [] && Empty(f)
    ensures Rendered(frames + [f]) == Rendered(frames) + Separator(Empty(frames[|frames| - 1])) + Opener(f)
  {
    hide Opener;
    var n := |frames|;
    assert (frames + [f])[..n] == frames;
    assert Content(f) == [];
  }

  /** What closing the innermost container leaves: its parent with one more child. */
  function Closed(frames: seq<Frame>): seq<Frame>
    requires Nested(frames) && |frames| > 1
  {
    var n := |frames| - 1;
    var parent := frames[n - 1];
    match frames[n]
    case OpenObject(members) => frames[..n - 1] + [AddItem(parent, Obj(members))]
    case OpenArray(key, items) => frames[..n - 1] + [AddMember(parent, Member(key, Arr(items)))]
    case Roots(_) => frames
  }

  function Closer(f: Frame): bytes {
    match f
    case OpenObject(_) => [125]
    case OpenArray(_, _) => [93]
    case Roots(_) => []
  }

  lemma CloseNested(frames: seq<Frame>)
    requires Nested(frames) && |frames| > 1
    ensures Nested(Closed(frames)) && |Closed(frames)| == |frames| - 1
  {
    var closed, n := Closed(frames), |frames| - 1;
    assert Fits(frames[n - 1], frames[n]);
    assert forall i :: 0 <= i < n - 1 ==> closed[i] == frames[i];
    assert closed[n - 1].Roots? == frames[n - 1].Roots? && closed[n - 1].OpenArray? == frames[n - 1].OpenArray?;
    forall i | 1 <= i < n
      ensures Fits(closed[i - 1], closed[i])
    {
      assert Fits(frames[i - 1], frames[i]);
    }
  }

  /** Closing a container writes its bracket, and the parent then contains the whole child. */
  lemma CloseRenders(frames: seq<Frame>)
    requires Nested(frames) && |frames| > 1
    ensures Nested(Closed(frames)) && |Closed(frames)| == |frames| - 1
    ensures !Empty(Closed(frames)[|frames| - 2])
    ensures Rendered(Closed(frames)) == Rendered(frames) + Closer(frames[|frames| - 1])
  {
    hide Quoted;
    var n := |frames| - 1;
    var parent, last, before := frames[n - 1], frames[n], frames[..n];
    var front := Rendered(before) + Separator(Empty(parent));
    var child := Opener(last) + Content(last) + Closer(last);
    var grown := if last.OpenObject? then AddItem(parent, Obj(last.members))
                 else AddMember(parent, Member(last.key, Arr(last.items)));
    if last.OpenObject? {
      AddItemContent(parent, Obj(last.members));
      assert Print(Obj(last.members)) == child;
    } else {
      AddMemberContent(parent, Member(last.key, Arr(last.items)));
      ArrayMemberText(last.key, last.items);
    }
    CloseNested(frames);
    hide Content, Opener, Closer, Print, Nested;
    assert Closed(frames) == before[n - 1 := grown];
    Associative(Content(parent), Separator(Empty(parent)), child);
    LastFrameGrows(before, grown, Separator(Empty(parent)) + child);
    Associative(Rendered(before), Separator(Empty(parent)), child);
    Associative(front, Opener(last) + Content(last), Closer(last));
    Associative(front, Opener(last), Content(last));
  }

  lemma ArrayMemberText(key: bytes, items: seq<Json>)
    ensures var f := OpenArray(key, items);
            PrintMember(Member(key, Arr(items))) == Opener(f) + Content(f) + Closer(f)
  {
    hide Quoted, PrintItems;
    var body := PrintItems(items, true) + [93];
    assert Print(Arr(items)) == [91] + PrintItems(items, true) + [93];
    Associative([91], PrintItems(items, true), [93]);
    Associative(Quoted(key) + [58], [91], body);
    Associative(Opener(OpenArray(key, items)), PrintItems(items, true), [93]);
  }

  // ---------------------------------------------------------------------
  // The writer
  // ---------------------------------------------------------------------

  /**
   * The streaming writer: a text, one comma flag and a stack of saved flags. The ghost
   * `frames` are the containers its caller has opened and what it has put into them.
   */
  class CanonicalJsonWriter {
    var text: bytes
    var needsComma: bool
    var stack: seq<bool>
    ghost var frames: seq<Frame>

    ghost predicate Valid()
      reads this
    {
      && Nested(frames) && text == Rendered(frames)
      && needsComma == !Empty(frames[|frames| - 1])
      && |stack| == |frames| - 1 && forall i :: 0 <= i < |stack| ==> stack[i]
    }

    ghost function Innermost(): Frame
      requires Valid()
      reads this
    {
      frames[|frames| - 1]
    }

    constructor ()
      ensures Valid() && frames == [Roots([])]
    {
      text, needsComma, stack, frames := [], false, [], [Roots([])];
    }

    method PushSeparator()
      modifies this
      ensures text == old(text) + Separator(!old(needsComma)) && needsComma
      ensures stack == old(stack) && frames == old(frames)
    {
      if needsComma {
        text := text + [COMMA];
      } else {
        needsComma := true;
      }
    }

    method WriteString(value: bytes)
      modifies this
      ensures text == old(text) + Quoted(value)
      ensures needsComma == old(needsComma) && stack == old(stack) && frames == old(frames)
    {
      hide EscapeByte;
      text := text + [QUOTE];
      ghost var start := text;
      assert value[0..] == value;
      for i := 0 to |value|
        invariant text + Escape(value[i..]) == start + Escape(value)
        invariant needsComma == old(needsComma) && stack == old(stack) && frames == old(frames)
      {
        assert value[i..][1..] == value[i + 1..];
        Associative(text, EscapeByte(value[i]), Escape(value[i + 1..]));
        text := text + EscapeByte(value[i]);
      }
      assert text == start + Escape(value);
      Associative(old(text), [QUOTE], Escape(value));
      Associative(old(text), [QUOTE] + Escape(value), [QUOTE]);
      text := text + [QUOTE];
    }

    method WriteKey(key: bytes)
      modifies this
      ensures text == old(text) + Separator(!old(needsComma)) + (Quoted(key) + [58]) && needsComma
      ensures stack == old(stack) && frames == old(frames)
    {
      hide Quoted;
      PushSeparator();
      Associative(text, Quoted(key), [58]);
      WriteString(key);
      text := text + [58];
    }

    method BeginObject()
      requires Valid() && !Innermost().OpenObject?
      modifies this
      ensures Valid() && frames == old(frames) + [OpenObject([])]
    {
      hide Rendered;
      PushSeparator();
      text := text + [123];
      stack := stack + [needsComma];
      needsComma := false;
      OpenRenders(frames, OpenObject([]));
      frames := frames + [OpenObject([])];
    }

    method EndObject()
      requires Valid() && Innermost().OpenObject?
      modifies this
      ensures Valid() && frames == Closed(old(frames))
    {
      hide Rendered;
      CloseRenders(frames);
      text := text + [125];
      needsComma, stack := stack[|stack| - 1], stack[..|stack| - 1];
      frames := Closed(frames);
    }

    method BeginArrayField(key: bytes)
      requires Valid() && Innermost().OpenObject?
      modifies this
      ensures Valid() && frames == old(frames) + [OpenArray(key, [])]
    {
      hide Rendered, Quoted;
      WriteKey(key);
      OpenRenders(frames, OpenArray(key, []));
      Associative(old(text) + Separator(!old(needsComma)), Quoted(key) + [58], [91]);
      text := text + [91];
      stack := stack + [true];
      needsComma := false;
      frames := frames + [OpenArray(key, [])];
    }

    method EndArray()
      requires Valid() && Innermost().OpenArray?
      modifies this
      ensures Valid() && frames == Closed(old(frames))
    {
      hide Rendered;
      CloseRenders(frames);
      text := text + [93];
      needsComma, stack := stack[|stack| - 1], stack[..|stack| - 1];
      frames := Closed(frames);
    }

    /** The object that is open gains a member. */
    ghost function WithMember(m: Member): seq<Frame>
      requires Valid() && Innermost().OpenObject?
      reads this
    {
      frames[|frames| - 1 := AddMember(Innermost(), m)]
    }

    /** The text after a key, its colon and its value is that of the object with one more member. */
    lemma MemberWritten(m: Member)
      requires Valid() && Innermost().OpenObject?
      ensures text + Separator(!needsComma) + (Quoted(m.key) + [58]) + Print(m.value) == Rendered(WithMember(m))
      ensures Nested(WithMember(m)) && !Empty(WithMember(m)[|frames| - 1])
    {
      hide Rendered, Quoted, Print;
      var last := Innermost();
      AddMemberContent(last, m);
      Associative(Content(last), Separator(Empty(last)), PrintMember(m));
      LastFrameGrows(frames, AddMember(last, m), Separator(Empty(last)) + PrintMember(m));
      Associative(text, Separator(Empty(last)), PrintMember(m));
      Associative(text + Separator(Empty(last)), Quoted(m.key) + [58], Print(m.value));
    }

    method FieldString(key: bytes, value: bytes)
      requires Valid() && Innermost().OpenObject?
      modifies this
      ensures Valid() && frames == old(WithMember(Member(key, Str(value))))
    {
      hide Rendered, Quoted;
      MemberWritten(Member(key, Str(value)));
      ghost var after := WithMember(Member(key, Str(value)));
      WriteKey(key);
      WriteString(value);
      frames := after;
    }

    method FieldU64(key: bytes, value: nat)
      requires Valid() && Innermost().OpenObject?
      modifies this
      ensures Valid() && frames == old(WithMember(Member(key, Num(value))))
    {
      hide Rendered, Quoted, Decimal;
      MemberWritten(Member(key, Num(value)));
      ghost var after := WithMember(Member(key, Num(value)));
      WriteKey(key);
      text := text + Decimal(value);
      frames := after;
    }

    method FieldBool(key: bytes, value: bool)
      requires Valid() && Innermost().OpenObject?
      modifies this
      ensures Valid() && frames == old(WithMember(Member(key, Bool(value))))
    {
      hide Rendered, Quoted;
      MemberWritten(Member(key, Bool(value)));
      ghost var after := WithMember(Member(key, Bool(value)));
      WriteKey(key);
      text := text + if value then [116, 114, 117, 101] else [102, 97, 108, 115, 101];
      frames := after;
    }

    method FieldOptU64(key: bytes, value: Option<nat>)
      requires Valid() && Innermost().OpenObject?
      modifies this
      ensures Valid() && frames == old(WithMember(Member(key, OptNum(value))))
    {
      hide Rendered, Quoted, Decimal;
      MemberWritten(Member(key, OptNum(value)));
      ghost var after := WithMember(Member(key, OptNum(value)));
      WriteKey(key);
      match value
      case Some(n) =>
        text := text + Decimal(n);
        frames := after;
      case None =>
        text := text + [110, 117, 108, 108];
        frames := after;
    }

    method FieldLowerHex(key: bytes, octets: bytes)
      requires Valid() && Innermost().OpenObject?
      modifies this
      ensures Valid() && frames == old(WithMember(Member(key, HexStr(octets))))
    {
      hide Rendered, Quoted, HexDigit;
      MemberWritten(Member(key, HexStr(octets)));
      ghost var after := WithMember(Member(key, HexStr(octets)));
      WriteKey(key);
      ghost var keyed := text;
      text := text + [QUOTE];
      ghost var start, saved, open := text, stack, frames;
      assert octets[0..] == octets;
      for i := 0 to |octets|
        invariant text + ToHex(octets[i..]) == start + ToHex(octets)
        invariant needsComma && stack == saved && frames == open
      {
        assert octets[i..][1..] == octets[i + 1..];
        var digits := [HexDigit(octets[i] / 16), HexDigit(octets[i] % 16)];
        Associative(text, digits, ToHex(octets[i + 1..]));
        text := text + digits;
      }
      assert text == start + ToHex(octets);
      Associative(keyed, [QUOTE], ToHex(octets));
      Associative(keyed, [QUOTE] + ToHex(octets), [QUOTE]);
      text := text + [QUOTE];
      frames := after;
    }
  }

  /** An absent number is `null`. */
  function OptNum(value: Option<nat>): Json {
    match value
    case Some(n) => Num(n)
    case None => Null
  }

  /** When everything is closed again, the writer's text is the recursive printer's. */
  lemma AllClosed(j: Json)
    ensures Rendered([Roots([j])]) == Print(j)
  {
    hide Print;
    assert [j][1..] == [];
    assert PrintItems([j], true) == [] + Print(j) + [] == Print(j);
  }
}
