/**
 * Storage of the project's multi-select network kinds: the selected
 * kinds are saved as one string joined with ", ", and read back for the
 * edit form by splitting on ',' and stripping whitespace from each piece
 * (Python's `str.join`, `str.split(',')` and `str.strip()`).
 */
module NetworkType {

  /** The two selectable network kinds. */
  const MediumVoltage: string := "Média Tensão"
  const LowVoltage: string := "Baixa Tensão"

  /** The separator written between selected kinds. */
  const Separator: string := ", "

  /** Python's `str.isspace()` for one character: the characters `strip()` removes. */
  predicate IsSpace(c: char) {
    || '\t' <= c <= '\r'
    || '\U{1c}' <= c <= ' '
    || c == '\U{85}' || c == '\U{a0}' || c == '\U{1680}'
    || '\U{2000}' <= c <= '\U{200a}'
    || c == '\U{2028}' || c == '\U{2029}' || c == '\U{202f}' || c == '\U{205f}' || c == '\U{3000}'
  }

  /** Neither starts nor ends with whitespace. */
  predicate Trimmed(s: string) {
    s == [] || (!IsSpace(s[0]) && !IsSpace(s[|s| - 1]))
  }

  /** `s.lstrip()`: `s` without its leading whitespace, and no more. */
  function LStrip(s: string): (r: string)
    ensures |r| <= |s| && r == s[|s| - |r|..]
    ensures forall i :: 0 <= i < |s| - |r| ==> IsSpace(s[i])
    ensures r == [] || !IsSpace(r[0])
  {
    if |s| > 0 && IsSpace(s[0]) then LStrip(s[1..]) else s
  }

  /** `s.rstrip()`: `s` without its trailing whitespace, and no more. */
  function RStrip(s: string): (r: string)
    ensures |r| <= |s| && r == s[..|r|]
    ensures forall i :: |r| <= i < |s| ==> IsSpace(s[i])
    ensures r == [] || !IsSpace(r[|r| - 1])
  {
    if |s| > 0 && IsSpace(s[|s| - 1]) then RStrip(s[..|s| - 1]) else s
  }

  /** Every character of `s` outside `s[i..j]` is whitespace. */
  predicate SpaceOutside(s: string, i: nat, j: nat)
    requires i <= j <= |s|
  {
    forall k :: 0 <= k < |s| && (k < i || j <= k) ==> IsSpace(s[k])
  }

  /** A prefix `r` of the suffix `s[i..]`, with whitespace after it, is `s[i..i + |r|]` with whitespace after it. */
  lemma PrefixOfSuffix(s: string, i: nat, left: string, r: string)
    requires i <= |s| && left == s[i..]
    requires |r| <= |left| && r == left[..|r|]
    requires forall m :: |r| <= m < |left| ==> IsSpace(left[m])
    ensures i + |r| <= |s| && r == s[i..i + |r|]
    ensures forall k :: i + |r| <= k < |s| ==> IsSpace(s[k])
  {
    forall k | i + |r| <= k < |s| ensures IsSpace(s[k]) {
      assert s[k] == left[k - i];
    }
  }

  /** Stripping cuts only whitespace, and only from the two ends. */
  lemma StripCutsSpaceOnly(s: string)
    ensures var r := RStrip(LStrip(s));
      exists i: nat, j: nat :: i <= j <= |s| && r == s[i..j] && SpaceOutside(s, i, j)
  {
    var left := LStrip(s);
    var r := RStrip(left);
    var i := |s| - |left|;
    PrefixOfSuffix(s, i, left, r);
    assert SpaceOutside(s, i, i + |r|);
  }

  /**
   * `s.strip()`: a contiguous part of `s` with only whitespace cut away on
   * either side; the result is trimmed.
   */
  function Strip(s: string): (r: string)
    ensures exists i: nat, j: nat :: i <= j <= |s| && r == s[i..j] && SpaceOutside(s, i, j)
    ensures Trimmed(r)
    ensures Trimmed(s) ==> r == s
  {
    StripCutsSpaceOnly(s);
    RStrip(LStrip(s))
  }

  /**
   * `sep.join(parts)`: no parts give "", otherwise the result starts with
   * the first part.
   */
  function Join(parts: seq<string>, sep: string): (r: string)
    ensures parts == [] ==> r == ""
    ensures |parts| >= 1 ==> parts[0] <= r
  {
    if |parts| == 0 then ""
    else if |parts| == 1 then parts[0]
    else parts[0] + sep + Join(parts[1..], sep)
  }

  /**
   * `s.split(sep)` for a one-character separator: the maximal pieces
   * between separators, always at least one (the empty string gives [""]).
   */
  function Split(s: string, sep: char): (parts: seq<string>)
    ensures |parts| >= 1
    ensures forall i :: 0 <= i < |parts| ==> sep !in parts[i]
  {
    if s == [] then [""]
    else
      var rest := Split(s[1..], sep);
      if s[0] == sep then [""] + rest
      else [[s[0]] + rest[0]] + rest[1..]
  }

  /**
   * How a selection is stored: the kinds joined with ", ". The empty
   * selection is stored as "", any other starts with its first kind.
   */
  function Encode(selection: seq<string>): (r: string)
    ensures selection == [] ==> r == ""
    ensures |selection| >= 1 ==> selection[0] <= r
  {
    Join(selection, Separator)
  }

  /** How a stored selection is read back: split on ',' and strip each piece. */
  function Decode(stored: string): (selection: seq<string>)
    ensures |selection| >= 1
    ensures forall i :: 0 <= i < |selection| ==> ',' !in selection[i] && Trimmed(selection[i])
  {
    var parts := Split(stored, ',');
    seq(|parts|, i requires 0 <= i < |parts| => Strip(parts[i]))
  }

  /** Splitting never loses anything: joining the pieces back gives the input. */
  lemma {:induction false} JoinSplit(s: string, sep: char)
    ensures Join(Split(s, sep), [sep]) == s
  {
    if s != [] {
      var rest := Split(s[1..], sep);
      JoinSplit(s[1..], sep);
      if s[0] == sep {
        assert Split(s, sep) == [""] + rest;
        assert ([""] + rest)[1..] == rest;
      } else {
        var parts := Split(s, sep);
        assert parts == [[s[0]] + rest[0]] + rest[1..];
        if |rest| > 1 {
          assert parts[1..] == rest[1..];
          assert Join(rest, [sep]) == rest[0] + [sep] + Join(rest[1..], [sep]);
        }
      }
    }
  }

  /** A piece without the separator followed by the separator splits off as one piece. */
  lemma {:induction false} SplitAfterPiece(a: string, sep: char, b: string)
    requires sep !in a
    ensures Split(a + [sep] + b, sep) == [a] + Split(b, sep)
  {
    if a == [] {
      assert [] + [sep] + b == [sep] + b;
      assert ([sep] + b)[1..] == b;
    } else {
      SplitAfterPiece(a[1..], sep, b);
      assert (a + [sep] + b)[1..] == a[1..] + [sep] + b;
      assert [a[0]] + a[1..] == a;
    }
  }

  /** A string without the separator is a single piece. */
  lemma {:induction false} SplitNoSeparator(a: string, sep: char)
    requires sep !in a
    ensures Split(a, sep) == [a]
  {
    if a != [] {
      SplitNoSeparator(a[1..], sep);
      assert [a[0]] + a[1..] == a;
    }
  }

  /** Each selected kind after the first, as it appears after the ',' it follows. */
  function Spaced(kinds: seq<string>): seq<string> {
    seq(|kinds|, i requires 0 <= i < |kinds| => " " + kinds[i])
  }

  /** A leading space joins the first piece. */
  lemma SplitAfterSpace(t: string, sep: char)
    requires sep != ' '
    ensures var rest := Split(t, sep); Split(" " + t, sep) == [" " + rest[0]] + rest[1..]
  {
    assert (" " + t)[1..] == t;
  }

  /**
   * Splitting a stored non-empty selection on ',' gives the first kind,
   * then every later kind with the space of the ", " separator in front.
   */
  lemma {:induction false} SplitEncoded(selection: seq<string>)
    requires |selection| >= 1
    requires forall i :: 0 <= i < |selection| ==> ',' !in selection[i]
    ensures Split(Encode(selection), ',') == [selection[0]] + Spaced(selection[1..])
  {
    if |selection| == 1 {
      SplitNoSeparator(selection[0], ',');
    } else {
      var tail := Encode(selection[1..]);
      assert Encode(selection) == selection[0] + [','] + (" " + tail);
      SplitAfterPiece(selection[0], ',', " " + tail);
      SplitEncoded(selection[1..]);
      SplitAfterSpace(tail, ',');
      var rest := Split(tail, ',');
      assert [" " + rest[0]] + rest[1..] == Spaced(selection[1..]);
    }
  }

  /** A leading space never survives stripping. */
  lemma StripSpaced(s: string)
    ensures Strip(" " + s) == Strip(s)
  {
  }

  /** Reading back strips each ','-separated piece, one item per piece. */
  lemma DecodePieces(stored: string)
    ensures var parts := Split(stored, ',');
      |Decode(stored)| == |parts| && forall i :: 0 <= i < |parts| ==> Decode(stored)[i] == Strip(parts[i])
  {
  }

  /** Each stored kind's piece strips back to that kind. */
  lemma PieceReadsBack(selection: seq<string>, i: nat)
    requires i < |selection|
    requires forall k :: 0 <= k < |selection| ==> ',' !in selection[k] && Trimmed(selection[k])
    ensures |Split(Encode(selection), ',')| == |selection|
    ensures Strip(Split(Encode(selection), ',')[i]) == selection[i]
  {
    SplitEncoded(selection);
    if i > 0 {
      assert Split(Encode(selection), ',')[i] == " " + selection[i];
      StripSpaced(selection[i]);
    }
  }

  /**
   * Storing a non-empty selection and reading it back gives the same
   * selection, provided no kind contains ',' or surrounding whitespace.
   */
  lemma {:induction false} DecodeEncode(selection: seq<string>)
    requires |selection| >= 1
    requires forall i :: 0 <= i < |selection| ==> ',' !in selection[i] && Trimmed(selection[i])
    ensures Decode(Encode(selection)) == selection
  {
    var stored := Encode(selection);
    DecodePieces(stored);
    PieceReadsBack(selection, 0);
    forall i | 0 <= i < |selection| ensures Decode(stored)[i] == selection[i] {
      PieceReadsBack(selection, i);
    }
  }

  /** The edge case: an empty selection is stored as "" and reads back as [""], not []. */
  lemma DecodeEncodeEmpty()
    ensures Encode([]) == ""
    ensures Decode(Encode([])) == [""]
  {
  }

  /**
   * Whether a given kind is selected survives storage, including for the
   * empty selection.
   */
  lemma SelectedSurvivesStorage(selection: seq<string>, kind: string)
    requires kind != ""
    requires forall i :: 0 <= i < |selection| ==> ',' !in selection[i] && Trimmed(selection[i])
    ensures kind in Decode(Encode(selection)) <==> kind in selection
  {
    if selection == [] {
      DecodeEncodeEmpty();
    } else {
      DecodeEncode(selection);
    }
  }

  /** Both selectable kinds read back unchanged: neither contains ',' or outer whitespace. */
  lemma KindsAreStorable()
    ensures ',' !in MediumVoltage && Trimmed(MediumVoltage)
    ensures ',' !in LowVoltage && Trimmed(LowVoltage)
  {
  }
}
