/**
 * Character- and string-level building blocks of the text pipeline:
 * case folding, deletion of ASCII punctuation, splitting and joining.
 */
module Text {

  /** The characters of Python's `string.punctuation`, in its order. */
  const Punctuation: string := "!\"#$%&'()*+,-./:;<=>?@[\\]^_`{|}~"

  /** Membership in `string.punctuation`: the four ASCII ranges of printable non-alphanumeric characters. */
  predicate IsPunctuation(c: char) {
    '!' <= c <= '/' || ':' <= c <= '@' || '[' <= c <= '`' || '{' <= c <= '~'
  }

  /** The ranges above are exactly the characters of `string.punctuation`. */
  lemma PunctuationRanges(c: char)
    ensures IsPunctuation(c) <==> c in Punctuation
  {
  }

  predicate IsAsciiUpper(c: char) {
    'A' <= c <= 'Z'
  }

  /** The separator of `' '.join(...)` and `str.split(' ')`. */
  predicate IsSpace(c: char) {
    c == ' '
  }

  /** The ASCII characters Python's `str.split()` treats as whitespace. */
  predicate IsWhitespace(c: char) {
    c == ' ' || c == '\t' || c == '\n' || c == '\r' || c == '\U{000B}' || c == '\U{000C}'
    || '\U{001C}' <= c <= '\U{001F}'
  }

  /** Case folding of one character, as `str.lower` does it on ASCII. */
  function LowerChar(c: char): (r: char)
    ensures !IsAsciiUpper(r)
    ensures IsAsciiUpper(c) ==> 'a' <= r <= 'z' && r as int - c as int == 'a' as int - 'A' as int
    ensures !IsAsciiUpper(c) ==> r == c
  {
    if IsAsciiUpper(c) then (c as int - 'A' as int + 'a' as int) as char else c
  }

  /** `str.lower`: same length, every ASCII upper-case letter folded, nothing else touched. */
  function Lower(s: string): (r: string)
    ensures |r| == |s|
    ensures forall i :: 0 <= i < |s| ==> r[i] == LowerChar(s[i])
    ensures forall c :: c in r ==> !IsAsciiUpper(c)
  {
    seq(|s|, i requires 0 <= i < |s| => LowerChar(s[i]))
  }

  /**
   * `s.translate(str.maketrans('', '', string.punctuation))`: the
   * characters of `s` that are not punctuation, in their order.
   */
  function StripPunctuation(s: string): (r: string)
    ensures |r| <= |s|
  {
    if s == [] then []
    else (if IsPunctuation(s[0]) then [] else [s[0]]) + StripPunctuation(s[1..])
  }

  /** Every punctuation character is gone; every other character keeps its number of occurrences. */
  lemma {:induction false} StripPunctuationCounts(s: string)
    ensures forall c :: multiset(StripPunctuation(s))[c] == if IsPunctuation(c) then 0 else multiset(s)[c]
  {
    if s != [] {
      assert s == [s[0]] + s[1..];
      StripPunctuationCounts(s[1..]);
    }
  }

  /** Deleting characters one by one keeps the survivors in their order. */
  lemma {:induction false} StripPunctuationAppend(a: string, b: string)
    ensures StripPunctuation(a + b) == StripPunctuation(a) + StripPunctuation(b)
  {
    if a == [] {
      assert a + b == b;
    } else {
      assert (a + b)[0] == a[0];
      assert (a + b)[1..] == a[1..] + b;
      StripPunctuationAppend(a[1..], b);
    }
  }

  /** Text without punctuation goes through unchanged. */
  lemma {:induction false} StripPunctuationKeeps(s: string)
    requires forall c :: c in s ==> !IsPunctuation(c)
    ensures StripPunctuation(s) == s
  {
    if s != [] {
      assert s[0] in s;
      assert forall c :: c in s[1..] ==> c in s;
      StripPunctuationKeeps(s[1..]);
      assert [s[0]] + s[1..] == s;
    }
  }

  /** Text made only of punctuation disappears. */
  lemma {:induction false} StripPunctuationDrops(s: string)
    requires forall c :: c in s ==> IsPunctuation(c)
    ensures StripPunctuation(s) == ""
  {
    if s != [] {
      assert s[0] in s;
      assert forall c :: c in s[1..] ==> c in s;
      StripPunctuationDrops(s[1..]);
    }
  }

  /** Deleting punctuation twice deletes nothing more. */
  lemma {:induction false} StripPunctuationIdempotent(s: string)
    ensures StripPunctuation(StripPunctuation(s)) == StripPunctuation(s)
  {
    if s != [] {
      var head := if IsPunctuation(s[0]) then [] else [s[0]];
      StripPunctuationAppend(head, StripPunctuation(s[1..]));
      StripPunctuationIdempotent(s[1..]);
      if !IsPunctuation(s[0]) {
        assert StripPunctuation(head) == head by {
          assert head[1..] == [];
        }
      }
    }
  }

  /** No ASCII letter is a punctuation character, so folding case never creates or removes one. */
  lemma LowerKeepsPunctuation(c: char)
    ensures IsPunctuation(LowerChar(c)) <==> IsPunctuation(c)
    ensures IsPunctuation(c) ==> LowerChar(c) == c
  {
    if IsAsciiUpper(c) {
      assert !IsPunctuation(c);
      assert !IsPunctuation(LowerChar(c));
    }
  }

  lemma LowerAppend(a: string, b: string)
    ensures Lower(a + b) == Lower(a) + Lower(b)
  {
  }

  /** Lowering before or after the punctuation deletion gives the same string. */
  lemma {:induction false} LowerStripCommute(s: string)
    ensures StripPunctuation(Lower(s)) == Lower(StripPunctuation(s))
  {
    if s != [] {
      var head := if IsPunctuation(s[0]) then [] else [s[0]];
      var lowered := Lower(s);
      LowerKeepsPunctuation(s[0]);
      assert lowered[0] == LowerChar(s[0]);
      assert lowered[1..] == Lower(s[1..]);
      assert StripPunctuation(lowered) == Lower(head) + StripPunctuation(Lower(s[1..]));
      LowerStripCommute(s[1..]);
      LowerAppend(head, StripPunctuation(s[1..]));
    }
  }

  /**
   * `' '.join(ws)`: the words in order with one space between neighbours;
   * every character is a space or comes from one of the words, and the
   * first word starts the result.
   */
  function Join(ws: seq<string>): (r: string)
    ensures ws == [] ==> r == ""
    ensures ws != [] ==> ws[0] <= r
    ensures forall c :: c in r ==> c == ' ' || exists i :: 0 <= i < |ws| && c in ws[i]
  {
    if ws == [] then ""
    else if |ws| == 1 then ws[0]
    else ws[0] + " " + Join(ws[1..])
  }

  /** Python's `s.split(sep)` for a one-character separator, generalised to a class of separators. */
  function SplitWhere(s: string, isSep: char -> bool): (r: seq<string>)
    ensures |r| >= 1
    ensures forall i, c :: 0 <= i < |r| && c in r[i] ==> !isSep(c) && c in s
  {
    if s == [] then [""]
    else
      var rest := SplitWhere(s[1..], isSep);
      assert forall i, c :: 0 <= i < |rest| && c in rest[i] ==> c in s by {
        assert forall c :: c in s[1..] ==> c in s;
      }
      if isSep(s[0]) then [""] + rest
      else
        var r := [[s[0]] + rest[0]] + rest[1..];
        assert forall i :: 1 <= i < |r| ==> r[i] == rest[i];
        r
  }

  /** `s.split(' ')`. */
  function Split(s: string): seq<string> {
    SplitWhere(s, IsSpace)
  }

  /** The empty pieces dropped, in order. */
  function NonEmpty(pieces: seq<string>): (r: seq<string>)
    ensures forall w :: w in r ==> w != "" && w in pieces
  {
    if pieces == [] then []
    else (if pieces[0] == "" then [] else [pieces[0]]) + NonEmpty(pieces[1..])
  }

  /** `s.split()`: the maximal runs of non-whitespace characters, in order. */
  function Words(s: string): (r: seq<string>)
    ensures forall w :: w in r ==> w != "" && forall c :: c in w ==> !IsWhitespace(c) && c in s
  {
    NonEmpty(SplitWhere(s, IsWhitespace))
  }

  /** A word free of separators is glued to the first piece of what follows it. */
  lemma {:induction false} SplitWherePrefix(w: string, s: string, isSep: char -> bool)
    requires forall c :: c in w ==> !isSep(c)
    ensures SplitWhere(w + s, isSep) == [w + SplitWhere(s, isSep)[0]] + SplitWhere(s, isSep)[1..]
  {
    var r := SplitWhere(s, isSep);
    if w == [] {
      assert w + s == s;
      assert w + r[0] == r[0];
      assert [w + r[0]] + r[1..] == r;
    } else {
      assert (w + s)[0] == w[0];
      assert (w + s)[1..] == w[1..] + s;
      SplitWherePrefix(w[1..], s, isSep);
      assert [w[0]] + (w[1..] + r[0]) == w + r[0];
    }
  }

  /** Splitting a join gives back the joined words when no word contains a separator. */
  lemma {:induction false} SplitWhereJoin(ws: seq<string>, isSep: char -> bool)
    requires |ws| >= 1 && isSep(' ')
    requires forall i, c :: 0 <= i < |ws| && c in ws[i] ==> !isSep(c)
    ensures SplitWhere(Join(ws), isSep) == ws
  {
    if |ws| == 1 {
      SplitWherePrefix(ws[0], "", isSep);
      assert ws[0] + "" == ws[0];
    } else {
      var tail := Join(ws[1..]);
      assert Join(ws) == ws[0] + (" " + tail);
      SplitWhereJoin(ws[1..], isSep);
      assert (" " + tail)[1..] == tail;
      assert SplitWhere(" " + tail, isSep) == [""] + ws[1..];
      SplitWherePrefix(ws[0], " " + tail, isSep);
      assert ws[0] + "" == ws[0];
      assert [ws[0]] + ws[1..] == ws;
    }
  }

  /** `' '.join(ws).split(' ') == ws` for a non-empty list of space-free words. */
  lemma SplitJoin(ws: seq<string>)
    requires |ws| >= 1
    requires forall w :: w in ws ==> ' ' !in w
    ensures Split(Join(ws)) == ws
  {
    SplitWhereJoin(ws, IsSpace);
  }

  /** Prepending a character to the first word prepends it to the join. */
  lemma JoinConsFirst(c: char, w: string, ws: seq<string>)
    ensures Join([[c] + w] + ws) == [c] + Join([w] + ws)
  {
    if ws != [] {
      assert ([[c] + w] + ws)[1..] == ws;
      assert ([w] + ws)[1..] == ws;
    }
  }

  /** `' '.join(s.split(' ')) == s` for every string. */
  lemma {:induction false} JoinSplit(s: string)
    ensures Join(Split(s)) == s
  {
    if s != [] {
      var rest := Split(s[1..]);
      JoinSplit(s[1..]);
      if IsSpace(s[0]) {
        assert ([""] + rest)[1..] == rest;
        assert Join([""] + rest) == "" + " " + Join(rest);
      } else {
        assert [rest[0]] + rest[1..] == rest;
        JoinConsFirst(s[0], rest[0], rest[1..]);
      }
    }
  }

  lemma {:induction false} NonEmptyAll(ws: seq<string>)
    requires forall w :: w in ws ==> w != ""
    ensures NonEmpty(ws) == ws
  {
    if ws != [] {
      assert ws[0] in ws;
      assert forall w :: w in ws[1..] ==> w in ws;
      NonEmptyAll(ws[1..]);
      assert [ws[0]] + ws[1..] == ws;
    }
  }

  /**
   * `' '.join(ws).split() == ws` for non-empty words without whitespace,
   * including the empty list, whose join is "".
   */
  lemma WordsJoin(ws: seq<string>)
    requires forall w :: w in ws ==> w != "" && forall c :: c in w ==> !IsWhitespace(c)
    ensures Words(Join(ws)) == ws
  {
    if ws == [] {
      assert SplitWhere("", IsWhitespace) == [""];
      assert NonEmpty([""]) == [] + NonEmpty([""][1..]);
    } else {
      forall i, c | 0 <= i < |ws| && c in ws[i] ensures !IsWhitespace(c) {
        assert ws[i] in ws;
      }
      SplitWhereJoin(ws, IsWhitespace);
      NonEmptyAll(ws);
    }
  }

  /** The whitespace tokenizer finds no token in "". */
  lemma WordsOfEmpty()
    ensures Words("") == []
  {
    WordsJoin([]);
  }
}
