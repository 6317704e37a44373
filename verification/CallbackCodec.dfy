/**
 The strings behind the bot's buttons. A button carries only its string; the handler tells from
 it which action on which device was meant.
 */
module CallbackCodec {
  import opened Decimal
  import opened MacText
  import opened DeviceStore

  // ---- str.split() ----

  predicate IsSpace(c: char) {
    var n := c as int;
    || 9 <= n <= 13 || 28 <= n <= 32 || n == 0x85 || n == 0xA0 || n == 0x1680 || 0x2000 <= n <= 0x200A
    || n == 0x2028 || n == 0x2029 || n == 0x202F || n == 0x205F || n == 0x3000
  }

  predicate IsWord(s: string) {
    s != [] && forall c :: c in s ==> !IsSpace(c)
  }

  function WordLength(s: string): (n: nat)
    ensures n <= |s| && forall k :: 0 <= k < n ==> !IsSpace(s[k])
    ensures n < |s| ==> IsSpace(s[n])
  {
    if s == [] || IsSpace(s[0]) then 0 else 1 + WordLength(s[1..])
  }

  function Split(s: string): (words: seq<string>)
    ensures s != [] && !IsSpace(s[0]) ==> words != []
    decreases |s|
  {
    if s == [] then []
    else if IsSpace(s[0]) then Split(s[1..])
    else [s[..WordLength(s)]] + Split(s[WordLength(s)..])
  }

  lemma {:induction false} SplitGivesWords(s: string)
    ensures forall w :: w in Split(s) ==> IsWord(w)
    decreases |s|
  {
    if s != [] {
      SplitGivesWords(if IsSpace(s[0]) then s[1..] else s[WordLength(s)..]);
    }
  }

  lemma {:induction false} WordLengthIs(w: string, rest: string)
    requires forall c :: c in w ==> !IsSpace(c)
    requires rest == [] || IsSpace(rest[0])
    ensures WordLength(w + rest) == |w|
  {
    if w == [] {
      assert w + rest == rest;
    } else {
      WordLengthIs(w[1..], rest);
      assert (w + rest)[1..] == w[1..] + rest;
    }
  }

  /** A word in front is split off, and the space behind it is dropped. */
  lemma SplitFirst(w: string, rest: string)
    requires IsWord(w)
    ensures Split(w + " " + rest) == [w] + Split(rest)
  {
    var s := w + " " + rest;
    assert s == w + (" " + rest);
    WordLengthIs(w, " " + rest);
    assert s[..|w|] == w && s[|w|..] == " " + rest && (" " + rest)[1..] == rest;
    assert s[0] == w[0];
  }

  lemma SplitLast(w: string)
    requires IsWord(w)
    ensures Split(w) == [w]
  {
    WordLengthIs(w, []);
    assert w + [] == w && w[..|w|] == w;
  }

  // ---- Actions and their strings ----

  datatype Action =
    | Ignore
    | OpenDoor
    | AskName(id: string)
    | SaveAs(id: string, name: string)
    | RemoveDevice(id: string)
    | Until(days: nat, id: string)
    | ShowSettings(id: string)

  function Encode(a: Action): string {
    match a
    case Ignore => "ignore"
    case OpenDoor => "open"
    case AskName(id) => "add:" + " " + id
    case SaveAs(id, name) => "new" + " " + (id + " " + name)
    case RemoveDevice(id) => "remove" + " " + id
    case Until(days, id) => "until" + " " + (Numeral(days) + " " + id)
    case ShowSettings(id) => id
  }

  /** The branches of callback_handler; None where it raises an exception. */
  function Decode(data: string): Option<Action> {
    var words := Split(data);
    if data == "ignore" then Some(Ignore)
    else if data == "open" then Some(OpenDoor)
    else if "add" <= data then Some(AskName(words[|words| - 1]))
    else if "new" <= data then if |words| == 3 then Some(SaveAs(words[1], words[2])) else None
    else if "remove" <= data then Some(RemoveDevice(words[|words| - 1]))
    else if "until" <= data then
      if |words| >= 3 && IsNumeral(words[1]) then Some(Until(Value(words[1]), words[2])) else None
    else Some(ShowSettings(data))
  }

  predicate Reserved(data: string) {
    data == "ignore" || data == "open" || "add" <= data || "new" <= data || "remove" <= data || "until" <= data
  }

  /** What a caller can check before it makes the button. */
  predicate Sendable(a: Action) {
    match a
    case Ignore => true
    case OpenDoor => true
    case AskName(id) => IsWord(id)
    case SaveAs(id, name) => IsWord(id) && IsWord(name)
    case RemoveDevice(id) => IsWord(id)
    case Until(_, id) => IsWord(id)
    case ShowSettings(id) => !Reserved(id)
  }

  lemma NumeralIsWord(n: nat)
    ensures IsWord(Numeral(n))
  {
  }

  lemma CommandsAreWords()
    ensures IsWord("add:") && IsWord("new") && IsWord("remove") && IsWord("until")
  {
  }

  lemma SplitPair(v: string, w: string)
    requires IsWord(v) && IsWord(w)
    ensures Split(v + " " + w) == [v, w]
  {
    SplitFirst(v, w);
    SplitLast(w);
  }

  lemma SplitTriple(u: string, v: string, w: string)
    requires IsWord(u) && IsWord(v) && IsWord(w)
    ensures Split(u + " " + (v + " " + w)) == [u, v, w]
  {
    SplitFirst(u, v + " " + w);
    SplitPair(v, w);
  }

  /** The branches exclude each other by their first letters. */
  lemma DecodeAdd(data: string)
    requires "add" <= data
    ensures Split(data) != [] && Decode(data) == Some(AskName(Split(data)[|Split(data)| - 1]))
  {
    assert data[0] == 'a';
    hide Split, Value;
  }

  lemma DecodeNew(data: string)
    requires "new" <= data
    ensures Decode(data) == if |Split(data)| == 3 then Some(SaveAs(Split(data)[1], Split(data)[2])) else None
  {
    assert data[0] == 'n';
    hide Split, Value;
  }

  lemma DecodeRemove(data: string)
    requires "remove" <= data
    ensures Split(data) != [] && Decode(data) == Some(RemoveDevice(Split(data)[|Split(data)| - 1]))
  {
    assert data[0] == 'r';
    hide Split, Value;
  }

  lemma DecodeUntil(data: string)
    requires "until" <= data
    ensures Decode(data) ==
      if |Split(data)| >= 3 && IsNumeral(Split(data)[1]) then Some(Until(Value(Split(data)[1]), Split(data)[2]))
      else None
  {
    assert data[0] == 'u';
    hide Split, Value;
  }

  lemma DecodesAskName(id: string)
    ensures Decode(Encode(AskName(id))) == Some(AskName(id)) <==> IsWord(id)
  {
    var data := "add:" + " " + id;
    assert data[..3] == "add";
    DecodeAdd(data);
    SplitGivesWords(data);
    hide Decode, Split, IsWord;
    if IsWord(id) {
      CommandsAreWords();
      SplitPair("add:", id);
    }
  }

  lemma DecodesRemove(id: string)
    ensures Decode(Encode(RemoveDevice(id))) == Some(RemoveDevice(id)) <==> IsWord(id)
  {
    var data := "remove" + " " + id;
    assert data[..6] == "remove";
    DecodeRemove(data);
    SplitGivesWords(data);
    hide Decode, Split, IsWord;
    if IsWord(id) {
      CommandsAreWords();
      SplitPair("remove", id);
    }
  }

  lemma DecodesSaveAs(id: string, name: string)
    ensures Decode(Encode(SaveAs(id, name))) == Some(SaveAs(id, name)) <==> IsWord(id) && IsWord(name)
  {
    var data := "new" + " " + (id + " " + name);
    assert data[..3] == "new";
    DecodeNew(data);
    hide Decode, Split, IsWord;
    if IsWord(id) && IsWord(name) {
      CommandsAreWords();
      SplitTriple("new", id, name);
    } else {
      SplitGivesWords(data);
    }
  }

  lemma DecodesUntil(days: nat, id: string)
    ensures Decode(Encode(Until(days, id))) == Some(Until(days, id)) <==> IsWord(id)
  {
    var data := "until" + " " + (Numeral(days) + " " + id);
    assert data[..5] == "until";
    DecodeUntil(data);
    hide Decode, Split, IsWord, Numeral, Value, IsNumeral;
    if IsWord(id) {
      CommandsAreWords();
      NumeralIsWord(days);
      NumeralRoundTrip(days);
      SplitTriple("until", Numeral(days), id);
    } else {
      SplitGivesWords(data);
    }
  }

  /** A button's string gives back the action it was built for exactly if the identifier and
      the name in it are words, and a bare identifier does not look like a command. */
  lemma CodecRoundTrip(a: Action)
    ensures Decode(Encode(a)) == Some(a) <==> Sendable(a)
  {
    hide Split;
    match a
    case AskName(id) => DecodesAskName(id);
    case RemoveDevice(id) => DecodesRemove(id);
    case SaveAs(id, name) => DecodesSaveAs(id, name);
    case Until(days, id) => DecodesUntil(days, id);
    case _ =>
  }

  /** The addresses that the door prints are words and look like no command. */
  lemma MacsAreSendable(a: Address)
    ensures IsWord(FormatMac(a)) && !Reserved(FormatMac(a))
  {
    MacCharacters(a);
    assert FormatMac(a)[0] in FormatMac(a);
    assert IsMacChar(FormatMac(a)[0]);
  }

  // ---- The keyboards ----

  function NewDeviceKeyboard(id: string): seq<string> {
    ["ignore", "open", "add: " + id]
  }

  function SettingsKeyboard(id: string): seq<string> {
    ["remove " + id, "until 1 " + id, "until 3 " + id, "until 7 " + id, "until 0 " + id]
  }

  function NameKeyboard(id: string, name: string): seq<string> {
    ["ignore", "new " + id + " " + name, "add: " + id]
  }

  function Decoded(keyboard: seq<string>): seq<Option<Action>> {
    seq(|keyboard|, k requires 0 <= k < |keyboard| => Decode(keyboard[k]))
  }

  lemma AcceptText(id: string, name: string)
    ensures NameKeyboard(id, name)[1] == Encode(SaveAs(id, name))
  {
  }

  lemma UntilTexts(id: string)
    ensures "until 0 " + id == Encode(Until(0, id)) && "until 1 " + id == Encode(Until(1, id))
    ensures "until 3 " + id == Encode(Until(3, id)) && "until 7 " + id == Encode(Until(7, id))
  {
    forall d: nat | d < 10 ensures "until " + [Digit(d)] + " " + id == Encode(Until(d, id)) {
      assert "until " + [Digit(d)] + " " + id == "until" + " " + ([Digit(d)] + " " + id);
    }
    assert "until 0 " == "until " + [Digit(0)] + " " && "until 1 " == "until " + [Digit(1)] + " ";
    assert "until 3 " == "until " + [Digit(3)] + " " && "until 7 " == "until " + [Digit(7)] + " ";
  }

  /** For a device whose address was printed by the door, and a name without whitespace, every
      button of every keyboard does what its label says, and the list's buttons open it. */
  lemma KeyboardsDecode(a: Address, name: string)
    requires IsWord(name)
    ensures var id := FormatMac(a);
      && Decoded(NewDeviceKeyboard(id)) == [Some(Ignore), Some(OpenDoor), Some(AskName(id))]
      && Decoded(SettingsKeyboard(id)) ==
         [Some(RemoveDevice(id)), Some(Until(1, id)), Some(Until(3, id)), Some(Until(7, id)), Some(Until(0, id))]
      && Decoded(NameKeyboard(id, name)) == [Some(Ignore), Some(SaveAs(id, name)), Some(AskName(id))]
      && Decode(id) == Some(ShowSettings(id))
  {
    var id := FormatMac(a);
    MacsAreSendable(a);
    hide FormatMac, Split, Decode, Numeral;
    CodecRoundTrip(Ignore);
    CodecRoundTrip(OpenDoor);
    CodecRoundTrip(AskName(id));
    CodecRoundTrip(RemoveDevice(id));
    CodecRoundTrip(SaveAs(id, name));
    CodecRoundTrip(ShowSettings(id));
    AcceptText(id, name);
    assert "add: " + id == Encode(AskName(id)) && "remove " + id == Encode(RemoveDevice(id));
    UntilTexts(id);
    CodecRoundTrip(Until(1, id));
    CodecRoundTrip(Until(3, id));
    CodecRoundTrip(Until(7, id));
    CodecRoundTrip(Until(0, id));
  }
}
