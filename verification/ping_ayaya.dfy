/**
 The `ping ayaya` command: a line of "ayaya"s, a bold line of "ayaya"s and a
 fixed GIF link.
 */
module PingAyaya {
  import opened Base

  const Word: string := "ayaya"

  const GifUrl: string := "https://tenor.com/view/ayaya-yeah-happy-hapinness-kiniro-gif-12992329"

  /** The bold count used when the option is omitted. */
  const DefaultBoldCount: int := 1

  function Max0(n: int): nat
  {
    if n > 0 then n else 0
  }

  /** `count` copies of the word (none for a count of zero or less). */
  function Copies(count: int): (ws: seq<string>)
    ensures |ws| == Max0(count)
    ensures forall i :: 0 <= i < |ws| ==> ws[i] == Word
    decreases Max0(count)
  {
    if count <= 0 then [] else [Word] + Copies(count - 1)
  }

  /** `(0 until count).map { "ayaya" }.joinToString(" ")`. */
  function Ayayas(count: int): string
  {
    Join(Copies(count), " ")
  }

  /** The message for `ayaya_count` and the optional `bold_ayaya_count`. */
  function Message(ayayaCount: int, boldAyayaCount: Option<int>): (msg: string)
    ensures Ayayas(ayayaCount) + "! **" <= msg
    ensures |msg| > |GifUrl| && msg[|msg| - |GifUrl|..] == GifUrl
  {
    var msg := Ayayas(ayayaCount) + "! **" + Ayayas(boldAyayaCount.GetOr(DefaultBoldCount)) + "!** " + GifUrl;
    assert msg[|msg| - |GifUrl|..] == GifUrl;
    msg
  }

  /** Leaving the bold count out is the same as asking for one, and one is a
      single word. */
  lemma OmittedBoldCountIsOne(ayayaCount: int)
    ensures Message(ayayaCount, None) == Message(ayayaCount, Some(1))
    ensures Ayayas(1) == Word
  {
    assert Copies(1) == [Word];
  }

  /* ---------------------------------------------------------------------- */
  /* Reading the counts back                                                 */
  /* ---------------------------------------------------------------------- */

  /** The prefix of `s` before the first `c` (all of `s` without one). */
  function UpTo(s: string, c: char): (p: string)
    ensures p <= s && c !in p
  {
    if |s| == 0 || s[0] == c then "" else [s[0]] + UpTo(s[1..], c)
  }

  lemma {:induction false} UpToStopsAt(a: string, b: string, c: char)
    requires c !in a && |b| > 0 && b[0] == c
    ensures UpTo(a + b, c) == a
  {
    if |a| == 0 {
      assert a + b == b;
    } else {
      assert (a + b)[1..] == a[1..] + b;
      UpToStopsAt(a[1..], b, c);
    }
  }

  /** Number of "ayaya" words in a split line. */
  function WordCount(ws: seq<string>): nat
  {
    if |ws| == 0 then 0 else (if ws[0] == Word then 1 else 0) + WordCount(ws[1..])
  }

  /** Words in one part of the message; the empty part has none. */
  function ReadCount(part: string): nat
  {
    if part == "" then 0 else WordCount(Split(part, ' '))
  }

  /** The counts a reader recovers from a message: the words before the
      first `!`, and the words between `! **` and the next `!`. */
  function ParseCounts(msg: string): (nat, nat)
  {
    var first := UpTo(msg, '!');
    var rest := if |first| + 4 <= |msg| then msg[|first| + 4..] else "";
    (ReadCount(first), ReadCount(UpTo(rest, '!')))
  }

  lemma {:induction false} AyayasHasNoBang(count: int)
    ensures '!' !in Ayayas(count)
    decreases Max0(count)
  {
    if count > 1 {
      AyayasHasNoBang(count - 1);
      assert Copies(count)[1..] == Copies(count - 1);
      assert Ayayas(count) == Word + " " + Ayayas(count - 1);
    } else if count == 1 {
      assert Copies(1) == [Word];
    }
  }

  lemma {:induction false} WordCountOfCopies(count: int)
    ensures WordCount(Copies(count)) == Max0(count)
    decreases Max0(count)
  {
    if count > 0 {
      WordCountOfCopies(count - 1);
      assert Copies(count)[1..] == Copies(count - 1);
    }
  }

  /** A part reads back as its count, or zero for a count of zero or less. */
  lemma ReadCountOfAyayas(count: int)
    ensures ReadCount(Ayayas(count)) == Max0(count)
  {
    if count > 0 {
      SplitJoin(Copies(count), ' ');
      WordCountOfCopies(count);
      assert Ayayas(count) != "" by {
        assert Copies(count)[0] == Word;
        if count == 1 {
          assert Copies(1) == [Word];
        } else {
          assert Ayayas(count) == Word + " " + Join(Copies(count)[1..], " ");
        }
      }
    }
  }

  /** The reader splits any message of the command's shape at its markers. */
  lemma ParseLayout(a: string, b: string, tail: string)
    requires '!' !in a && '!' !in b
    ensures ParseCounts(a + "! **" + b + "!** " + tail) == (ReadCount(a), ReadCount(b))
  {
    var msg := a + "! **" + b + "!** " + tail;
    assert msg == a + ("! **" + b + "!** " + tail);
    UpToStopsAt(a, "! **" + b + "!** " + tail, '!');
    var rest := msg[|a| + 4..];
    assert rest == b + ("!** " + tail);
    UpToStopsAt(b, "!** " + tail, '!');
  }

  /** Both counts can be read back from the message, so it holds
      `max(n, 0) + max(m, 0)` words in total, `m` defaulting to one. */
  lemma MessageReadsBack(n: int, bold: Option<int>)
    ensures ParseCounts(Message(n, bold)) == (Max0(n), Max0(bold.GetOr(DefaultBoldCount)))
    ensures ParseCounts(Message(n, bold)).0 + ParseCounts(Message(n, bold)).1
         == Max0(n) + Max0(bold.GetOr(DefaultBoldCount))
  {
    var m := bold.GetOr(DefaultBoldCount);
    AyayasHasNoBang(n);
    AyayasHasNoBang(m);
    ParseLayout(Ayayas(n), Ayayas(m), GifUrl);
    ReadCountOfAyayas(n);
    ReadCountOfAyayas(m);
  }
}
