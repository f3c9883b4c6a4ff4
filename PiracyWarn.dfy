/**
 The piracy-keyword listener (piracywarn/piracywarn.py): every message posted
 in a server is split on single spaces, and when one of its words is exactly one
 of the keywords the author receives one private warning naming the channel.
 */
module PiracyWarn {
  import opened Text
  import opened Discord

  const KEYWORDS: seq<string> := ["seedbox", "seed-box", "piratebay"]

  /** The warning template, `{}` standing for the channel name. */
  const WARNING_MESSAGE: string := WARNING_HEAD + "{}" + WARNING_TAIL

  /** The warning text before and after its one placeholder. */
  const WARNING_HEAD: string :=
    "A friendly reminder that we do not "
    + "condone any related discussion regarding "
    + "pirated material on this server. "
    + "Your last message in "
  const WARNING_TAIL: string :=
    " was flagged as potentially in "
    + "contravention of Rule 3 (See #rules for "
    + "more information)."

  /**
   A message event: the author, the name of the channel it was posted in, its
   text, and whether it came through a server (false for a direct message,
   where the framework reports no server).
   */
  datatype Message = Message(author: string, channelName: string, content: string, inServer: bool)

  /** The words the listener compares: `content.split(' ')`. */
  function Words(content: string): seq<string> {
    Split(content, ' ')
  }

  /**
   Some keyword is one of the words of the message; equivalently, some keyword
   stands in the text as a whole word, between spaces or the ends of the text.
   */
  function Flagged(content: string): (flagged: bool)
    ensures flagged <==> exists k :: k in KEYWORDS && IsField(content, ' ', k)
  {
    KeywordWords(content);
    exists k :: k in KEYWORDS && k in Words(content)
  }

  /** For each keyword, being one of the words is being a whole-word occurrence. */
  lemma KeywordWords(content: string)
    ensures forall k :: k in KEYWORDS ==> (k in Words(content) <==> IsField(content, ' ', k))
  {
    forall k | k in KEYWORDS
      ensures k in Words(content) <==> IsField(content, ' ', k)
    {
      FieldIff(content, ' ', k);
    }
  }

  /** The warning sent for a message posted in the channel called `channelName`. */
  function WarningText(channelName: string): (text: string)
    ensures text == WARNING_HEAD + channelName + WARNING_TAIL
  {
    WarningFill(channelName);
    Format(WARNING_MESSAGE, [channelName])
  }

  /** The warning template has one placeholder, which the channel name fills. */
  lemma WarningFill(channelName: string)
    ensures Holes(WARNING_MESSAGE) == 1
    ensures Format(WARNING_MESSAGE, [channelName]) == WARNING_HEAD + channelName + WARNING_TAIL
  {
    WarningPlain();
    FormatOne(WARNING_HEAD, WARNING_TAIL, channelName);
  }

  /** Neither fixed part of the warning holds a brace. */
  lemma WarningPlain()
    ensures '{' !in WARNING_HEAD && '{' !in WARNING_TAIL
  {
    // one literal at a time keeps each solver query small
    Plain1(); Plain2(); Plain3(); Plain4(); Plain5(); Plain6(); Plain7();
  }

  lemma Plain1() ensures '{' !in "A friendly reminder that we do not " {}
  lemma Plain2() ensures '{' !in "condone any related discussion regarding " {}
  lemma Plain3() ensures '{' !in "pirated material on this server. " {}
  lemma Plain4() ensures '{' !in "Your last message in " {}
  lemma Plain5() ensures '{' !in " was flagged as potentially in " {}
  lemma Plain6() ensures '{' !in "contravention of Rule 3 (See #rules for " {}
  lemma Plain7() ensures '{' !in "more information)." {}

  /** What the listener does for one message: the reference behaviour. */
  function Warnings(msg: Message): (effects: seq<Effect>)
    ensures |effects| <= 1
    ensures forall e :: e in effects ==> e == SendDM(msg.author, WARNING_HEAD + msg.channelName + WARNING_TAIL)
  {
    if msg.inServer && Flagged(msg.content) then [SendDM(msg.author, WarningText(msg.channelName))]
    else []
  }

  /**
   The listener: walks the keywords in order and sends the warning at the
   first one found among the words, then stops.
   */
  method OnMessage(msg: Message) returns (effects: seq<Effect>)
    ensures effects == Warnings(msg)
    ensures |effects| <= 1
  {
    effects := [];
    if msg.inServer {
      var words := Split(msg.content, ' ');
      var i := 0;
      while i < |KEYWORDS|
        invariant 0 <= i <= |KEYWORDS|
        invariant effects == []
        invariant forall j :: 0 <= j < i ==> KEYWORDS[j] !in words
      {
        if KEYWORDS[i] in words {
          assert KEYWORDS[i] in KEYWORDS;
          effects := [SendDM(msg.author, WarningText(msg.channelName))];
          break;
        }
        i := i + 1;
      }
      assert effects == [] ==> !Flagged(msg.content);
    }
  }

  /** The listener never warns about a direct message. */
  lemma NoServerNoWarning(msg: Message)
    requires !msg.inServer
    ensures Warnings(msg) == []
  {
  }

  /**
   A message is warned about exactly when it was posted in a server and some
   keyword stands in it as a whole word between spaces (or the ends of the
   text); the one warning goes privately to the author and names the channel.
   */
  lemma WarnedIffKeywordWord(msg: Message)
    ensures |Warnings(msg)| <= 1
    ensures |Warnings(msg)| == 1 <==>
      msg.inServer && exists k :: k in KEYWORDS && IsField(msg.content, ' ', k)
    ensures forall e :: e in Warnings(msg) ==>
      e == SendDM(msg.author, WARNING_HEAD + msg.channelName + WARNING_TAIL)
  {
  }

  /**
   A message without a space is a single word, so it triggers exactly when it
   is a keyword itself: matching is whole-word and case-sensitive, and only the
   space separates words.
   */
  lemma SingleWordFlaggedIff(content: string)
    requires ' ' !in content
    ensures Flagged(content) <==> content in KEYWORDS
  {
    SplitNoSep(content, ' ');
  }

  /**
   A longer word, a capitalised one, one with punctuation attached, or one set
   off by a tab does not trigger.
   */
  lemma NearMissesNotFlagged(content: string)
    requires content in ["seedboxes", "Seedbox", "seedbox,", "my\tseedbox"]
    ensures !Flagged(content)
  {
    SingleWordFlaggedIff(content);
  }

  /** A keyword between spaces triggers, also after a run of spaces (empty words). */
  lemma KeywordWordFlagged(content: string)
    requires content == "get a seedbox now"
    ensures Flagged(content)
  {
    FieldIff(content, ' ', "seedbox");
    assert FieldAt(content, ' ', "seedbox", 6);
    assert KEYWORDS[0] == "seedbox" && "seedbox" in Words(content);
  }

  lemma KeywordAfterSpacesFlagged(content: string)
    requires content == "the  piratebay"
    ensures Flagged(content)
  {
    FieldIff(content, ' ', "piratebay");
    assert FieldAt(content, ' ', "piratebay", 5);
    assert KEYWORDS[2] == "piratebay" && "piratebay" in Words(content);
  }
}
