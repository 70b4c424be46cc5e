/**
 * The string helpers of the bot: whitespace stripping, case folding, splitting on
 * a separator, the display label of a task (`extract_task_name`) and the
 * comma/newline separated configuration lists (`parse_env_list`).
 */
module Text {

  /** `str.isspace()` on one character, for the ASCII range. */
  predicate IsSpace(c: char)
    ensures IsSpace(c) ==> c as int < 128
  {
    c == ' ' || ('\t' <= c <= '\r') || ('\U{1C}' <= c <= '\U{1F}')
  }

  predicate AllSpace(s: string) {
    forall i | 0 <= i < |s| :: IsSpace(s[i])
  }

  /** Neither end of `s` is whitespace: `s.strip() == s`. */
  predicate Stripped(s: string) {
    s == [] || (!IsSpace(s[0]) && !IsSpace(s[|s| - 1]))
  }

  /** `s.lstrip()`: the longest suffix of `s` that does not start with whitespace. */
  function LStrip(s: string): (r: string)
    ensures |r| <= |s| && r == s[|s| - |r|..]
    ensures r == [] || !IsSpace(r[0])
  {
    if s != [] && IsSpace(s[0]) then LStrip(s[1..]) else s
  }

  /** `lstrip` removes only whitespace. */
  lemma {:induction false} LStripSpace(s: string)
    ensures AllSpace(s[..|s| - |LStrip(s)|])
  {
    if s != [] && IsSpace(s[0]) {
      LStripSpace(s[1..]);
      var n := |s| - |LStrip(s)|;
      assert s[..n] == [s[0]] + s[1..][..n - 1];
    }
  }

  /** `s.rstrip()`: the longest prefix of `s` that does not end with whitespace. */
  function RStrip(s: string): (r: string)
    ensures |r| <= |s| && r == s[..|r|]
    ensures r == [] || !IsSpace(r[|r| - 1])
  {
    if s != [] && IsSpace(s[|s| - 1]) then RStrip(s[..|s| - 1]) else s
  }

  /** `rstrip` removes only whitespace. */
  lemma {:induction false} RStripSpace(s: string)
    ensures AllSpace(s[|RStrip(s)|..])
  {
    if s != [] && IsSpace(s[|s| - 1]) {
      var init := s[..|s| - 1];
      RStripSpace(init);
      var n := |RStrip(s)|;
      assert s[n..] == init[n..] + [s[|s| - 1]];
    }
  }

  /** `s` is `r` with only whitespace around it, `r` starting at index `i`. */
  predicate Padded(s: string, r: string, i: int) {
    0 <= i <= |s| - |r| && s[i..i + |r|] == r && AllSpace(s[..i]) && AllSpace(s[i + |r|..])
  }

  /** `s.strip()`: `s` with its whitespace ends removed. */
  function Strip(s: string): (r: string)
    ensures Stripped(r)
    ensures |r| <= |s|
  {
    var l := LStrip(s);
    var r := RStrip(l);
    assert r == [] || !IsSpace(r[0]) by {
      if r != [] { assert r[0] == l[0]; }
    }
    r
  }

  /**
   * What `strip` removes is whitespace: the result is the slice of `s` that
   * starts after the leading whitespace, with only whitespace after it.
   */
  lemma StripPadded(s: string)
    ensures Padded(s, Strip(s), |s| - |LStrip(s)|)
  {
    var l := LStrip(s);
    var r := RStrip(l);
    var i := |s| - |l|;
    assert Strip(s) == r;
    SliceOfSuffix(s, l, r, i);
    LStripSpace(s);
    RStripSpace(l);
    assert AllSpace(s[i + |r|..]) by {
      assert s[i + |r|..] == l[|r|..];
    }
    assert Padded(s, r, i);
  }

  /** A prefix `r` of the suffix `l` of `s` that starts at `i` is the slice of `s` at `i`. */
  lemma SliceOfSuffix(s: string, l: string, r: string, i: int)
    requires 0 <= i <= |s| && l == s[i..] && |r| <= |l| && r == l[..|r|]
    ensures s[i..i + |r|] == r && s[i + |r|..] == l[|r|..]
  {
  }

  /** A string that is already stripped is left as it is. */
  lemma StripStripped(s: string)
    requires Stripped(s)
    ensures Strip(s) == s
  {
    assert LStrip(s) == s;
    assert RStrip(s) == s;
  }

  /** Characters that survive `strip` were in the input. */
  lemma StripKeeps(s: string, c: char)
    requires c in Strip(s)
    ensures c in s
  {
    StripPadded(s);
    SliceKeeps(s, Strip(s), |s| - |LStrip(s)|, c);
  }

  lemma SliceKeeps(s: string, r: string, i: int, c: char)
    requires 0 <= i <= |s| - |r| && s[i..i + |r|] == r
    requires c in r
    ensures c in s
  {
    var k :| 0 <= k < |r| && r[k] == c;
    assert s[i + k] == r[k];
  }

  /** `s.rstrip(c)`: `s` without its trailing run of `c`. */
  function RStripChar(s: string, c: char): (r: string)
    ensures |r| <= |s| && r == s[..|r|]
    ensures forall i | |r| <= i < |s| :: s[i] == c
    ensures r == [] || r[|r| - 1] != c
  {
    if s != [] && s[|s| - 1] == c then RStripChar(s[..|s| - 1], c) else s
  }

  /**
   * `s.rsplit(c, 1)[-1]`: the text after the last `c` in `s`, or all of `s`
   * when `c` does not occur in it.
   */
  function AfterLast(s: string, c: char): (r: string)
    ensures c !in r
    ensures |r| <= |s| && r == s[|s| - |r|..]
    ensures |r| < |s| ==> s[|s| - |r| - 1] == c
  {
    var n := LastEnd(s, c);
    assert forall k | 0 <= k < |s| - n :: s[n..][k] == s[n + k];
    s[n..]
  }

  /** The index just past the last `c` in `s`, or 0 when there is none. */
  function LastEnd(s: string, c: char): (n: nat)
    ensures n <= |s|
    ensures forall i | n <= i < |s| :: s[i] != c
    ensures n > 0 ==> s[n - 1] == c
  {
    if s == [] || s[|s| - 1] == c then |s|
    else
      var init := s[..|s| - 1];
      var n := LastEnd(init, c);
      assert forall i | n <= i < |init| :: s[i] == init[i];
      n
  }

  /** Python's `casefold` restricted to ASCII: upper-case letters become lower-case. */
  function FoldChar(c: char): (d: char)
    ensures !('A' <= d <= 'Z')
  {
    if 'A' <= c <= 'Z' then (c as int + 32) as char else c
  }

  function Fold(s: string): (r: string)
    ensures |r| == |s|
  {
    seq(|s|, i requires 0 <= i < |s| => FoldChar(s[i]))
  }

  /** Folding is a normal form: folding twice is folding once. */
  lemma FoldIdempotent(s: string)
    ensures Fold(Fold(s)) == Fold(s)
  {
    forall i | 0 <= i < |s| ensures Fold(Fold(s))[i] == Fold(s)[i] {
      assert Fold(s)[i] == FoldChar(s[i]);
    }
  }

  /** Casefolded text holds no upper-case ASCII letter. */
  lemma FoldNoUpper(s: string)
    ensures forall i | 0 <= i < |s| :: !('A' <= Fold(s)[i] <= 'Z')
  {
    forall i | 0 <= i < |s| ensures !('A' <= Fold(s)[i] <= 'Z') {
      assert Fold(s)[i] == FoldChar(s[i]);
    }
  }

  /** `sep.join(parts)`. */
  function Join(parts: seq<string>, sep: char): string
  {
    if parts == [] then []
    else if |parts| == 1 then parts[0]
    else parts[0] + [sep] + Join(parts[1..], sep)
  }

  /** `s.split(sep)`: the pieces of `s` between separators. */
  function Split(s: string, sep: char): (parts: seq<string>)
    ensures |parts| >= 1
  {
    if s == [] then [[]]
    else
      var rest := Split(s[1..], sep);
      if s[0] == sep then [[]] + rest
      else [[s[0]] + rest[0]] + rest[1..]
  }

  /** The pieces hold no separator, and joining them with it gives `s` back. */
  lemma JoinSplit(s: string, sep: char)
    ensures forall p | p in Split(s, sep) :: sep !in p
    ensures Join(Split(s, sep), sep) == s
  {
    SplitNoSep(s, sep);
    SplitJoinsBack(s, sep);
  }

  lemma {:induction false} SplitNoSep(s: string, sep: char)
    ensures forall p | p in Split(s, sep) :: sep !in p
  {
    if s != [] {
      var rest := Split(s[1..], sep);
      SplitNoSep(s[1..], sep);
      if s[0] != sep {
        assert rest[0] in rest;
        forall p | p in Split(s, sep) ensures sep !in p {
          if p != [s[0]] + rest[0] {
            assert p in rest[1..];
          }
        }
      }
    }
  }

  lemma {:induction false} SplitJoinsBack(s: string, sep: char)
    ensures Join(Split(s, sep), sep) == s
  {
    if s != [] {
      var rest := Split(s[1..], sep);
      SplitJoinsBack(s[1..], sep);
      if s[0] == sep {
        assert Split(s, sep) == [[]] + rest;
        JoinEmptyFirst(rest, sep);
      } else {
        assert Split(s, sep) == [[s[0]] + rest[0]] + rest[1..];
        JoinExtendFirst(rest, sep, s[0]);
      }
      assert s == [s[0]] + s[1..];
    }
  }

  /** An empty first piece puts a separator in front of the join. */
  lemma JoinEmptyFirst(parts: seq<string>, sep: char)
    requires |parts| >= 1
    ensures Join([[]] + parts, sep) == [sep] + Join(parts, sep)
  {
    assert ([[]] + parts)[1..] == parts;
  }

  /** Putting a character in front of the first piece puts it in front of the join. */
  lemma JoinExtendFirst(parts: seq<string>, sep: char, c: char)
    requires |parts| >= 1
    ensures Join([[c] + parts[0]] + parts[1..], sep) == [c] + Join(parts, sep)
  {
    var extended := [[c] + parts[0]] + parts[1..];
    assert extended[1..] == parts[1..];
  }

  /** Splitting a join of separator-free pieces gives the pieces back. */
  lemma {:induction false} SplitJoin(parts: seq<string>, sep: char)
    requires |parts| >= 1
    requires forall p | p in parts :: sep !in p
    ensures Split(Join(parts, sep), sep) == parts
    decreases |Join(parts, sep)|
  {
    var s := Join(parts, sep);
    if parts[0] == [] {
      if |parts| > 1 {
        assert s == [sep] + Join(parts[1..], sep);
        assert s[1..] == Join(parts[1..], sep);
        SplitJoin(parts[1..], sep);
        assert parts == [[]] + parts[1..];
      }
    } else {
      var c := parts[0][0];
      var shorter := [parts[0][1..]] + parts[1..];
      assert shorter[1..] == parts[1..];
      assert parts[0] in parts;
      forall p | p in shorter ensures sep !in p {
        if p == parts[0][1..] {
          assert forall k | 0 <= k < |p| :: p[k] == parts[0][k + 1];
        } else {
          assert p in parts[1..];
          var k :| 0 <= k < |parts[1..]| && parts[1..][k] == p;
          assert parts[k + 1] in parts;
        }
      }
      if |parts| == 1 {
        assert s == [c] + Join(shorter, sep);
      } else {
        assert Join(shorter, sep) == parts[0][1..] + [sep] + Join(parts[1..], sep);
        assert s == [c] + Join(shorter, sep);
      }
      assert s[1..] == Join(shorter, sep);
      assert c != sep by { assert c in parts[0]; }
      SplitJoin(shorter, sep);
      assert parts[0] == [c] + shorter[0];
      assert parts == [[c] + shorter[0]] + shorter[1..];
    }
  }

  /** `s.replace(a, b)` for single characters. */
  function Replace(s: string, a: char, b: char): (r: string)
    ensures |r| == |s|
    ensures a !in s ==> r == s
    ensures a != b ==> a !in r
    ensures forall i | 0 <= i < |s| :: r[i] == (if s[i] == a then b else s[i])
  {
    seq(|s|, i requires 0 <= i < |s| => if s[i] == a then b else s[i])
  }

  /** A join contains only the pieces' characters and the separator. */
  lemma {:induction false} JoinChars(parts: seq<string>, sep: char, c: char)
    requires c != sep
    requires forall p | p in parts :: c !in p
    ensures c !in Join(parts, sep)
  {
    if |parts| > 1 {
      JoinChars(parts[1..], sep, c);
      assert parts[0] in parts;
    } else if |parts| == 1 {
      assert parts[0] in parts;
    }
  }

  /** `[item.strip() for item in parts]` */
  function StripAll(parts: seq<string>): (r: seq<string>)
    ensures |r| == |parts|
    ensures forall i | 0 <= i < |parts| :: r[i] == Strip(parts[i])
  {
    seq(|parts|, i requires 0 <= i < |parts| => Strip(parts[i]))
  }

  /** `[item for item in parts if item]` */
  function NonEmpty(parts: seq<string>): (r: seq<string>)
    ensures forall x | x in r :: x != [] && x in parts
    ensures forall x | x in parts && x != [] :: x in r
    ensures (forall x | x in parts :: x != []) ==> r == parts
  {
    if parts == [] then []
    else
      assert parts[0] in parts;
      assert forall x | x in parts[1..] :: x in parts;
      if parts[0] == [] then NonEmpty(parts[1..])
      else [parts[0]] + NonEmpty(parts[1..])
  }

  /**
   * `parse_env_list`: the non-blank, stripped items of a list written with commas
   * or newlines between items.
   */
  function ParseEnvList(value: string): (items: seq<string>)
    ensures forall x | x in items :: x != [] && Stripped(x) && ',' !in x && '\n' !in x
  {
    if value == [] then []
    else
      var pieces := Split(Replace(value, '\n', ','), ',');
      PiecesClean(value, pieces);
      NonEmpty(StripAll(pieces))
  }

  lemma PiecesClean(value: string, pieces: seq<string>)
    requires pieces == Split(Replace(value, '\n', ','), ',')
    ensures forall x | x in StripAll(pieces) :: ',' !in x && '\n' !in x
  {
    var stripped := StripAll(pieces);
    JoinSplit(Replace(value, '\n', ','), ',');
    forall x | x in stripped ensures ',' !in x && '\n' !in x {
      var k :| 0 <= k < |stripped| && stripped[k] == x;
      assert pieces[k] in pieces;
      JoinLacks(pieces, ',', '\n');
      if ',' in x { StripKeeps(pieces[k], ','); }
      if '\n' in x { StripKeeps(pieces[k], '\n'); }
    }
  }

  /** A character missing from a join is missing from every piece. */
  lemma {:induction false} JoinLacks(parts: seq<string>, sep: char, c: char)
    requires c !in Join(parts, sep)
    ensures forall p | p in parts :: c !in p
  {
    if |parts| > 1 {
      assert Join(parts, sep) == parts[0] + [sep] + Join(parts[1..], sep);
      JoinLacks(parts[1..], sep, c);
      assert forall p | p in parts :: p == parts[0] || p in parts[1..];
    }
  }

  /** A character of one piece occurs in the join. */
  lemma {:induction false} JoinHas(parts: seq<string>, sep: char, k: nat, c: char)
    requires k < |parts| && c in parts[k]
    ensures c in Join(parts, sep)
  {
    if k > 0 {
      JoinHas(parts[1..], sep, k - 1, c);
    }
  }

  /** The filter keeps the order: filtering a concatenation concatenates the filtered parts. */
  lemma {:induction false} NonEmptyConcat(a: seq<string>, b: seq<string>)
    ensures NonEmpty(a + b) == NonEmpty(a) + NonEmpty(b)
  {
    if a == [] {
      assert a + b == b;
    } else {
      var ab := a + b;
      assert ab[0] == a[0] && ab[1..] == a[1..] + b;
      NonEmptyConcat(a[1..], b);
      var head := if a[0] == [] then [] else [a[0]];
      assert NonEmpty(ab) == head + NonEmpty(ab[1..]);
      assert NonEmpty(a) == head + NonEmpty(a[1..]);
    }
  }

  /** A newline separates items exactly as a comma does. */
  lemma NewlineIsComma(value: string)
    ensures ParseEnvList(value) == ParseEnvList(Replace(value, '\n', ','))
  {
    var commas := Replace(value, '\n', ',');
    assert Replace(commas, '\n', ',') == commas;
  }

  /**
   * Pieces written with commas between them parse to the stripped pieces in
   * order, with the blank ones dropped, when no piece holds a comma or newline.
   */
  lemma ParseEnvListPieces(pieces: seq<string>)
    requires |pieces| >= 1
    requires forall p | p in pieces :: ',' !in p && '\n' !in p
    ensures ParseEnvList(Join(pieces, ',')) == NonEmpty(StripAll(pieces))
  {
    var s := Join(pieces, ',');
    SplitJoin(pieces, ',');
    if s == [] {
      assert pieces == [[]];
      assert StripAll(pieces) == [[]];
    } else {
      JoinChars(pieces, ',', '\n');
      assert Replace(s, '\n', ',') == s;
    }
  }

  /**
   * Writing a list of items with commas between them and parsing it again gives
   * the items back, when every item is non-blank, stripped and free of commas
   * and newlines.
   */
  lemma ParseEnvListJoin(items: seq<string>)
    requires forall x | x in items :: x != [] && Stripped(x) && ',' !in x && '\n' !in x
    ensures ParseEnvList(Join(items, ',')) == items
  {
    if items != [] {
      var s := Join(items, ',');
      assert s != [] by { assert items[0] in items; JoinHas(items, ',', 0, items[0][0]); }
      JoinChars(items, ',', '\n');
      assert Replace(s, '\n', ',') == s;
      SplitJoin(items, ',');
      assert StripAll(items) == items by {
        forall k | 0 <= k < |items| ensures Strip(items[k]) == items[k] {
          assert items[k] in items;
          StripStripped(items[k]);
        }
      }
    }
  }

  /** A task written as a chat hyperlink `<url|label>`. */
  predicate IsLink(task: string)
    ensures IsLink(task) ==> task != [] && task[0] == '<' && '|' in task
  {
    '|' in task && task[0] == '<'
  }

  /**
   * `name` is what is left of the text after a hyperlink's last `|` once the
   * closing `>` run and the surrounding whitespace are gone: `tail` is some
   * whitespace, then `name` (starting at `i`), then whitespace up to `j`, then
   * the whole trailing run of `>` characters.
   */
  predicate LabelAt(tail: string, name: string, i: int, j: int) {
    0 <= i <= i + |name| <= j <= |tail| &&
    tail[i..i + |name|] == name && AllSpace(tail[..i]) && AllSpace(tail[i + |name|..j]) &&
    (forall k | j <= k < |tail| :: tail[k] == '>') && (j == 0 || tail[j - 1] != '>')
  }

  /**
   * `extract_task_name`: the display label of a task. For a hyperlink it is the
   * text after the last `|`, without the closing `>` characters and without
   * surrounding whitespace; any other task is only stripped.
   */
  function ExtractTaskName(task: string): (name: string)
    ensures Stripped(name)
    ensures IsLink(task) ==> '|' !in name && exists i, j :: LabelAt(AfterLast(task, '|'), name, i, j)
    ensures !IsLink(task) ==> name == Strip(task)
  {
    if IsLink(task) then
      var tail := AfterLast(task, '|');
      LinkLabel(tail);
      Strip(RStripChar(tail, '>'))
    else
      Strip(task)
  }

  lemma LinkLabel(tail: string)
    requires '|' !in tail
    ensures var name := Strip(RStripChar(tail, '>'));
      '|' !in name && exists i, j :: LabelAt(tail, name, i, j)
  {
    var text := RStripChar(tail, '>');
    var name := Strip(text);
    var i := |text| - |LStrip(text)|;
    StripPadded(text);
    LabelAtPadded(tail, text, name, i);
    PrefixLacks(tail, |text|, '|');
    StripLacks(text, '|');
    assert LabelAt(tail, name, i, |text|);
  }

  /** A character missing from a string is missing from its prefixes. */
  lemma PrefixLacks(s: string, k: int, c: char)
    requires 0 <= k <= |s| && c !in s
    ensures c !in s[..k]
  {
    forall j | 0 <= j < k ensures s[..k][j] != c {
      assert s[..k][j] == s[j];
    }
  }

  lemma LabelAtPadded(tail: string, text: string, name: string, i: int)
    requires text == RStripChar(tail, '>')
    requires Padded(text, name, i)
    ensures LabelAt(tail, name, i, |text|)
  {
    assert tail[i..i + |name|] == name;
    assert tail[..i] == text[..i];
    assert tail[i + |name|..|text|] == text[i + |name|..];
    assert text != [] ==> tail[|text| - 1] == text[|text| - 1];
  }

  /**
   * The link label is determined: any stripped name that `LabelAt` places in the
   * text after the last `|` is the one `ExtractTaskName` returns.
   */
  lemma LinkLabelUnique(task: string, name: string, i: int, j: int)
    requires IsLink(task)
    requires LabelAt(AfterLast(task, '|'), name, i, j) && Stripped(name)
    ensures name == ExtractTaskName(task)
  {
    var tail := AfterLast(task, '|');
    var text := RStripChar(tail, '>');
    RStripCharAt(tail, '>', j);
    LabelAtPrefix(tail, name, i, j);
    StripPadded(text);
    PaddedUnique(text, name, i, Strip(text), |text| - |LStrip(text)|);
  }

  /** The label sits padded in the part of `tail` before the `>` run. */
  lemma LabelAtPrefix(tail: string, name: string, i: int, j: int)
    requires LabelAt(tail, name, i, j)
    ensures Padded(tail[..j], name, i)
  {
    var text := tail[..j];
    assert text[i..i + |name|] == name;
    assert text[..i] == tail[..i];
    assert text[i + |name|..] == tail[i + |name|..j];
  }

  /** A prefix followed only by `c`, and not itself ending in `c`, is what `rstrip(c)` leaves. */
  lemma RStripCharAt(s: string, c: char, j: int)
    requires 0 <= j <= |s|
    requires forall k | j <= k < |s| :: s[k] == c
    requires j == 0 || s[j - 1] != c
    ensures RStripChar(s, c) == s[..j]
  {
    var r := RStripChar(s, c);
    assert r != [] ==> r[|r| - 1] == s[|r| - 1];
    assert |r| == j;
  }

  /** Two stripped strings that both pad out to the same text are equal. */
  lemma PaddedUnique(s: string, a: string, i: int, b: string, k: int)
    requires Padded(s, a, i) && Stripped(a)
    requires Padded(s, b, k) && Stripped(b)
    ensures a == b
  {
    PaddedBlank(s, a, i);
    PaddedBlank(s, b, k);
    if a != [] && b != [] {
      PaddedBounds(s, a, i);
      PaddedBounds(s, b, k);
      assert i == k;
      assert i + |a| == k + |b|;
    }
  }

  /** A stripped string padded out to `s` is empty exactly when `s` is all whitespace. */
  lemma PaddedBlank(s: string, a: string, i: int)
    requires Padded(s, a, i) && Stripped(a)
    ensures a == [] <==> AllSpace(s)
  {
    if a == [] {
      forall j | 0 <= j < |s| ensures IsSpace(s[j]) {
        if j < i {
          assert s[..i][j] == s[j];
        } else {
          assert s[i..][j - i] == s[j];
        }
      }
    } else {
      assert s[i] == a[0];
    }
  }

  /** A non-empty stripped string padded out to `s` spans from its first to its last non-space character. */
  lemma PaddedBounds(s: string, a: string, i: int)
    requires Padded(s, a, i) && Stripped(a) && a != []
    ensures forall j | 0 <= j < i :: IsSpace(s[j])
    ensures forall j | i + |a| <= j < |s| :: IsSpace(s[j])
    ensures !IsSpace(s[i]) && !IsSpace(s[i + |a| - 1])
  {
    forall j | 0 <= j < i ensures IsSpace(s[j]) {
      assert s[..i][j] == s[j];
    }
    forall j | i + |a| <= j < |s| ensures IsSpace(s[j]) {
      assert s[i + |a|..][j - i - |a|] == s[j];
    }
    assert s[i] == a[0];
    assert s[i + |a| - 1] == a[|a| - 1];
  }

  /** Stripping cannot introduce a character. */
  lemma StripLacks(s: string, c: char)
    requires c !in s
    ensures c !in Strip(s)
  {
    var r := Strip(s);
    var i := |s| - |LStrip(s)|;
    StripPadded(s);
    forall k | 0 <= k < |r| ensures r[k] != c {
      assert r[k] == s[i + k];
    }
  }

  /** The normalised label under which a task is remembered and compared. */
  function Label(task: string): (l: string)
    ensures Fold(l) == l
  {
    FoldIdempotent(ExtractTaskName(task));
    Fold(ExtractTaskName(task))
  }
}
