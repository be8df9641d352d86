/** The decision logic of the voice front end: which recognised utterances
    start a conversation (and as what), which captured questions are discarded
    as bare trigger words, and the name of the JSON log file written after an
    answer. Speech recognition, playback and the main loop are not modelled. */
module Chatbot {
  import opened Wrappers
  import opened PyText

  /** `c.lower()` for the characters Polish speech recognition produces: ASCII,
      Latin-1 and Latin Extended-A (all Polish capitals among them), except
      U+0130 whose lower case is two characters. Other characters are kept. */
  function LowerChar(c: char): (l: char)
    ensures 'A' <= c <= 'Z' ==> l as int == c as int + 32
    ensures c as int < 0xC0 && !('A' <= c <= 'Z') ==> l == c
  {
    var u := c as int;
    if 'A' as int <= u <= 'Z' as int then (u + 32) as char
    else if 0xC0 <= u <= 0xDE && u != 0xD7 then (u + 32) as char
    else if (0x100 <= u <= 0x12F || 0x132 <= u <= 0x137 || 0x14A <= u <= 0x177) && u % 2 == 0 then (u + 1) as char
    else if (0x139 <= u <= 0x148 || 0x179 <= u <= 0x17E) && u % 2 == 1 then (u + 1) as char
    else if u == 0x178 then 0xFF as char
    else c
  }

  /** `s.lower()`. */
  function Lower(s: string): (r: string)
    ensures |r| == |s|
  {
    seq(|s|, i requires 0 <= i < |s| => LowerChar(s[i]))
  }

  datatype Trigger = QuestionTrigger | Greeting

  const QuestionWord: string := "pytanie"
  const QuestionPhrase: string := "mam pytanie"
  const Hello: string := "witaj"
  const Hi: string := "cześć"

  /** Any utterance containing "mam pytanie" contains "pytanie". */
  lemma QuestionPhraseSubsumed(s: string)
    ensures Contains(s, QuestionPhrase) ==> Contains(s, QuestionWord)
  {
    if Contains(s, QuestionPhrase) {
      var i :| 0 <= i <= |s| - |QuestionPhrase| && OccursAt(s, QuestionPhrase, i);
      assert s[i + 4..i + 11] == s[i..i + 11][4..] == QuestionWord;
      assert OccursAt(s, QuestionWord, i + 4);
    }
  }

  /** The trigger an utterance raises and the utterance itself, as recognised:
      a question when its lower case contains "pytanie", otherwise a greeting
      when it contains "witaj" or "cześć", otherwise none. */
  function Classify(text: string): (r: (Option<Trigger>, string))
    ensures r.1 == text
    ensures r.0 == Some(QuestionTrigger) <==> Contains(Lower(text), QuestionWord)
    ensures r.0 == Some(Greeting) <==>
      !Contains(Lower(text), QuestionWord) && (Contains(Lower(text), Hello) || Contains(Lower(text), Hi))
  {
    var lowered := Lower(text);
    QuestionPhraseSubsumed(lowered);
    if Contains(lowered, QuestionPhrase) || Contains(lowered, QuestionWord) then (Some(QuestionTrigger), text)
    else if Contains(lowered, Hello) || Contains(lowered, Hi) then (Some(Greeting), text)
    else (None, text)
  }

  /** A question that speaks of a question wins over a greeting in the same utterance. */
  lemma QuestionBeforeGreeting(text: string)
    requires Contains(Lower(text), QuestionWord)
    requires Contains(Lower(text), Hello) || Contains(Lower(text), Hi)
    ensures Classify(text).0 == Some(QuestionTrigger)
  {
  }

  const TriggerWords: seq<string> := [Hello, Hi, QuestionPhrase, QuestionWord]

  /** The captured question, lower-cased and stripped, is nothing but a trigger word. */
  predicate IsTriggerOnly(question: string)
  {
    Strip(Lower(question)) in TriggerWords
  }

  /** The question passed on to the answering system: nothing when recognition
      gave nothing or an empty text, or when the text is a bare trigger word. */
  function AcceptQuestion(question: Option<string>): (r: Option<string>)
    ensures r.Some? ==> question.Some? && r.value == question.value
  {
    if question.None? || question.value == "" then None
    else if IsTriggerOnly(question.value) then None
    else question
  }

  /** A question is discarded exactly when it is missing, empty, or a bare
      trigger word; anything whose stripped lower case is longer than the
      longest trigger word passes. */
  lemma AcceptQuestionExactly(question: Option<string>)
    ensures AcceptQuestion(question).None? <==>
      question.None? || question.value == "" || IsTriggerOnly(question.value)
    ensures question.Some? && |Strip(Lower(question.value))| > |QuestionPhrase| ==>
      AcceptQuestion(question) == question
  {
  }

  lemma ContainsTransitive(s: string, m: string, w: string)
    requires Contains(s, m) && Contains(m, w)
    ensures Contains(s, w)
  {
    var i :| 0 <= i <= |s| - |m| && OccursAt(s, m, i);
    var j :| 0 <= j <= |m| - |w| && OccursAt(m, w, j);
    forall k | 0 <= k < |w|
      ensures s[i + j + k] == w[k]
    {
      assert m[j + k] == w[k];
      assert s[i + (j + k)] == s[i..i + |m|][j + k];
    }
    assert s[i + j..i + j + |w|] == w;
    assert OccursAt(s, w, i + j);
  }

  lemma ContainsSelf(s: string)
    ensures Contains(s, s)
  {
    assert OccursAt(s, s, 0);
  }

  /** Every text the filter discards as a bare trigger word would itself have
      been classified as a trigger. */
  lemma TriggerOnlyIsTrigger(question: string)
    requires IsTriggerOnly(question)
    ensures Classify(question).0.Some?
  {
    var lowered := Lower(question);
    var w := Strip(lowered);
    StripIsSubstring(lowered);
    ContainsSelf(w);
    ContainsTransitive(lowered, w, w);
    QuestionPhraseSubsumed(lowered);
  }

  /** A local time as `datetime.now()` reports it. */
  datatype DateTime = DateTime(year: int, month: int, day: int, hour: int, minute: int, second: int)

  /** Four-digit years and the usual ranges for the other fields. */
  predicate ValidDateTime(t: DateTime)
  {
    1000 <= t.year <= 9999 && 1 <= t.month <= 12 && 1 <= t.day <= 31
    && 0 <= t.hour < 24 && 0 <= t.minute < 60 && 0 <= t.second < 60
  }

  function Pow10(w: nat): (p: nat)
    ensures p > 0
  {
    if w == 0 then 1 else 10 * Pow10(w - 1)
  }

  /** `n` in decimal, zero-padded to `width` digits (as `%02d`, `%04d`). */
  function Pad(n: nat, width: nat): (r: string)
    ensures |r| == width
    ensures forall i :: 0 <= i < |r| ==> '0' <= r[i] <= '9'
  {
    if width == 0 then [] else Pad(n / 10, width - 1) + [Digit(n % 10)]
  }

  /** A padded number reads back as itself when it fits the width. */
  lemma {:induction false} PadParse(n: nat, width: nat)
    requires n < Pow10(width)
    ensures ParseNat(Pad(n, width)) == n
  {
    if width > 0 {
      PadParse(n / 10, width - 1);
      var r := Pad(n, width);
      assert r[..|r| - 1] == Pad(n / 10, width - 1);
    }
  }

  /** `strftime("%Y%m%d_%H%M%S")`. */
  function Stamp(t: DateTime): (s: string)
    requires ValidDateTime(t)
    ensures |s| == 15 && s[8] == '_'
    ensures forall i :: 0 <= i < |s| && i != 8 ==> '0' <= s[i] <= '9'
  {
    Pad(t.year, 4) + Pad(t.month, 2) + Pad(t.day, 2) + "_" + Pad(t.hour, 2) + Pad(t.minute, 2) + Pad(t.second, 2)
  }

  /** The name of the log file written at time `t`. */
  function LogFileName(t: DateTime): (name: string)
    requires ValidDateTime(t)
    ensures |name| == 25 && name[..5] == "chat_" && name[20..] == ".json"
  {
    "chat_" + Stamp(t) + ".json"
  }

  /** Where that file goes: inside `logDir`. */
  function LogFilePath(logDir: string, t: DateTime): (p: string)
    requires ValidDateTime(t)
    ensures 25 <= |p| && p[|p| - 25..] == LogFileName(t)
  {
    PathJoin(logDir, LogFileName(t))
  }

  predicate AllDigits(s: string)
  {
    forall i :: 0 <= i < |s| ==> '0' <= s[i] <= '9'
  }

  /** Reads the time back from a log file name. */
  function ParseLogFileName(name: string): Option<DateTime>
  {
    if |name| == 25 && name[..5] == "chat_" && name[13] == '_' && name[20..] == ".json"
       && AllDigits(name[5..9]) && AllDigits(name[9..11]) && AllDigits(name[11..13])
       && AllDigits(name[14..16]) && AllDigits(name[16..18]) && AllDigits(name[18..20])
    then
      Some(DateTime(ParseNat(name[5..9]), ParseNat(name[9..11]), ParseNat(name[11..13]),
                    ParseNat(name[14..16]), ParseNat(name[16..18]), ParseNat(name[18..20])))
    else None
  }

  /** Where each part sits in "chat_" + date + "_" + time + ".json". */
  lemma NameLayout(y: string, mo: string, d: string, h: string, mi: string, se: string)
    requires |y| == 4 && |mo| == 2 && |d| == 2 && |h| == 2 && |mi| == 2 && |se| == 2
    ensures var name := "chat_" + y + mo + d + "_" + h + mi + se + ".json";
      |name| == 25 && name[..5] == "chat_" && name[13] == '_' && name[20..] == ".json"
      && name[5..9] == y && name[9..11] == mo && name[11..13] == d
      && name[14..16] == h && name[16..18] == mi && name[18..20] == se
  {
    var date := "chat_" + y + mo + d;
    var time := h + mi + se;
    var name := "chat_" + y + mo + d + "_" + h + mi + se + ".json";
    assert name == date + "_" + time + ".json";
    assert name[..13] == date;
    assert name[14..20] == time;
    assert date[5..9] == y && date[9..11] == mo && date[11..13] == d;
    assert time[..2] == h && time[2..4] == mi && time[4..] == se;
  }

  /** Where each field of the time sits in the log file name. */
  lemma LogFileNameLayout(t: DateTime)
    requires ValidDateTime(t)
    ensures var name := LogFileName(t);
      |name| == 25 && name[..5] == "chat_" && name[13] == '_' && name[20..] == ".json"
      && name[5..9] == Pad(t.year, 4) && name[9..11] == Pad(t.month, 2) && name[11..13] == Pad(t.day, 2)
      && name[14..16] == Pad(t.hour, 2) && name[16..18] == Pad(t.minute, 2) && name[18..20] == Pad(t.second, 2)
  {
    NameLayout(Pad(t.year, 4), Pad(t.month, 2), Pad(t.day, 2), Pad(t.hour, 2), Pad(t.minute, 2), Pad(t.second, 2));
  }

  /** The log file name has 25 characters and the time can be read back from
      it, so logs written at different seconds never share a file. */
  lemma LogFileNameRoundTrip(t: DateTime)
    requires ValidDateTime(t)
    ensures |LogFileName(t)| == 25
    ensures ParseLogFileName(LogFileName(t)) == Some(t)
  {
    LogFileNameLayout(t);
    assert Pow10(2) == 100 && Pow10(4) == 10000;
    PadParse(t.year, 4);
    PadParse(t.month, 2);
    PadParse(t.day, 2);
    PadParse(t.hour, 2);
    PadParse(t.minute, 2);
    PadParse(t.second, 2);
  }

  /** Two different times give two different log file names. */
  lemma LogFileNamesDistinct(t1: DateTime, t2: DateTime)
    requires ValidDateTime(t1) && ValidDateTime(t2) && t1 != t2
    ensures LogFileName(t1) != LogFileName(t2)
  {
    LogFileNameRoundTrip(t1);
    LogFileNameRoundTrip(t2);
  }

  /** The log file lies directly inside the log directory, under its own name. */
  lemma LogFileInDir(logDir: string, t: DateTime)
    requires ValidDateTime(t)
    ensures Basename(LogFilePath(logDir, t)) == LogFileName(t)
  {
    var name := LogFileName(t);
    var stamp := Stamp(t);
    assert forall i :: 0 <= i < |stamp| ==> stamp[i] != '/' by {
      assert stamp == Pad(t.year, 4) + Pad(t.month, 2) + Pad(t.day, 2) + "_"
        + Pad(t.hour, 2) + Pad(t.minute, 2) + Pad(t.second, 2);
    }
    assert forall i :: 0 <= i < |name| ==> name[i] != '/';
    BasenameOfJoin(logDir, name);
  }
}
