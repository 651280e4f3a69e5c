/** The `skills` column travels from analyzer.py to app.py as the text of a
    Python list of strings, `['python', 'power bi']`, written by `repr` and
    read back by evaluating it. This module models that text format only for
    plain tokens (printable ASCII without quote or backslash, which `repr`
    writes verbatim between single quotes): an encoder, a decoder that
    accepts exactly the encoder's output, and the round trip both ways. */
module SkillCodec {
  import opened Wrappers
  import Analyzer

  const QUOTE: char := '\''

  /** A token `repr` writes unchanged between single quotes. */
  predicate Plain(t: string)
  {
    forall k :: 0 <= k < |t| ==> ' ' <= t[k] <= '~' && t[k] != QUOTE && t[k] != '\\'
  }

  /** `repr` of one plain string. */
  function Quoted(t: string): string
  {
    [QUOTE] + t + [QUOTE]
  }

  /** The items of a non-empty list, separated by `", "`, and the closing `]`. */
  function Items(xs: seq<string>): string
    requires xs != []
  {
    Quoted(xs[0]) + if |xs| == 1 then "]" else ", " + Items(xs[1..])
  }

  /** `repr` of a list of plain strings. */
  function Encode(xs: seq<string>): string
  {
    if xs == [] then "[]" else "[" + Items(xs)
  }

  /** Reads a token up to its closing quote: the token and the text after
      the quote, or `None` when no quote follows. */
  function ReadToken(s: string): (r: Option<(string, string)>)
    ensures r.Some? ==> s == r.value.0 + [QUOTE] + r.value.1 && QUOTE !in r.value.0
    ensures r.None? ==> QUOTE !in s
  {
    if s == [] then None
    else if s[0] == QUOTE then Some(([], s[1..]))
    else match ReadToken(s[1..])
      case None => None
      case Some((t, rest)) => Some(([s[0]] + t, rest))
  }

  /** Reads `'tok', 'tok', ... 'tok']`, the part of a list after `[`. */
  function ReadItems(s: string): Option<seq<string>>
    decreases |s|
  {
    if s == [] || s[0] != QUOTE then None
    else match ReadToken(s[1..])
      case None => None
      case Some((t, rest)) =>
        if |rest| == 1 && rest[0] == ']' then Some([t])
        else if |rest| >= 2 && rest[0] == ',' && rest[1] == ' ' then
          match ReadItems(rest[2..])
          case None => None
          case Some(ts) => Some([t] + ts)
        else None
  }

  /** The list back from its text, or `None` when the text is not one the
      encoder writes. */
  function Decode(s: string): Option<seq<string>>
  {
    if |s| == 2 && s[0] == '[' && s[1] == ']' then Some([])
    else if s != [] && s[0] == '[' then ReadItems(s[1..])
    else None
  }

  lemma {:induction false} ReadTokenOf(t: string, rest: string)
    requires QUOTE !in t
    ensures ReadToken(t + [QUOTE] + rest) == Some((t, rest))
    decreases |t|
  {
    var s := t + [QUOTE] + rest;
    if t == [] {
      assert s[0] == QUOTE && s[1..] == rest;
    } else {
      assert s[0] == t[0] != QUOTE;
      assert s[1..] == t[1..] + [QUOTE] + rest;
      assert QUOTE !in t[1..];
      ReadTokenOf(t[1..], rest);
      assert [t[0]] + t[1..] == t;
    }
  }

  lemma {:induction false} ReadItemsOf(xs: seq<string>)
    requires xs != [] && forall i :: 0 <= i < |xs| ==> Plain(xs[i])
    ensures ReadItems(Items(xs)) == Some(xs)
    decreases |xs|
  {
    var t := xs[0];
    assert QUOTE !in t by {
      assert Plain(xs[0]);
    }
    var after: string := if |xs| == 1 then "]" else ", " + Items(xs[1..]);
    var s := Items(xs);
    assert s == [QUOTE] + (t + [QUOTE] + after);
    assert s[0] == QUOTE && s[1..] == t + [QUOTE] + after;
    ReadTokenOf(t, after);
    if |xs| == 1 {
      assert xs == [t];
    } else {
      assert after[2..] == Items(xs[1..]);
      ReadItemsOf(xs[1..]);
      assert [t] + xs[1..] == xs;
    }
  }

  /** Decoding what was encoded gives the list back. */
  lemma DecodeEncode(xs: seq<string>)
    requires forall i :: 0 <= i < |xs| ==> Plain(xs[i])
    ensures Decode(Encode(xs)) == Some(xs)
  {
    if xs != [] {
      var s := Encode(xs);
      assert s[1..] == Items(xs);
      assert s[1] == QUOTE;
      ReadItemsOf(xs);
    }
  }

  lemma {:induction false} ItemsOfRead(s: string, xs: seq<string>)
    requires ReadItems(s) == Some(xs)
    ensures xs != [] && Items(xs) == s
    ensures forall i :: 0 <= i < |xs| ==> QUOTE !in xs[i]
    decreases |s|
  {
    var r := ReadToken(s[1..]);
    var t, rest := r.value.0, r.value.1;
    assert s == [QUOTE] + s[1..];
    if |rest| == 1 && rest[0] == ']' {
      assert xs == [t];
      assert rest == "]";
    } else {
      var ts := ReadItems(rest[2..]).value;
      assert xs == [t] + ts;
      ItemsOfRead(rest[2..], ts);
      assert xs[1..] == ts;
      assert rest == ", " + rest[2..];
    }
  }

  /** The decoder accepts only what the encoder writes: a decoded text is
      the encoding of its list, and no decoded token holds a quote. */
  lemma EncodeDecode(s: string, xs: seq<string>)
    requires Decode(s) == Some(xs)
    ensures Encode(xs) == s
    ensures forall i :: 0 <= i < |xs| ==> QUOTE !in xs[i]
  {
    if |s| == 2 && s[0] == '[' && s[1] == ']' {
      assert s == "[]";
    } else {
      ItemsOfRead(s[1..], xs);
      assert s == "[" + s[1..];
    }
  }

  /** Every vocabulary token is plain, so any list of found skills survives
      the trip through the `skills` column. */
  lemma SkillListsRoundTrip(xs: seq<string>)
    requires forall i :: 0 <= i < |xs| ==> xs[i] in Analyzer.SKILLS_LIST
    ensures Decode(Encode(xs)) == Some(xs)
  {
    forall i | 0 <= i < |Analyzer.SKILLS_LIST|
      ensures Plain(Analyzer.SKILLS_LIST[i])
    {
    }
    DecodeEncode(xs);
  }
}
