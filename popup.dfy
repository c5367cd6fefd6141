/**
 * The list logic of the settings popup: adding a custom extension
 * (trim, normalise, validate, reject defaults and duplicates, append),
 * removing one, parsing the comma-separated target selectors, and the
 * values the panel shows when it opens.
 */
module Popup {
  import opened Strings
  import opened Settings
  import Extensions

  /** The default extensions listed by the popup. */
  const Defaults: seq<string> := [
    ".py", ".js", ".ts", ".cpp", ".c", ".cs", ".java", ".go", ".php", ".rs", ".md",
    ".json", ".yml", ".yaml", ".html", ".css", ".sh", ".bat", ".pl", ".rb", ".jsx",
    ".tsx", ".vue", ".svelte", ".dart", ".kt", ".swift", ".r", ".sql", ".xml",
    ".toml", ".ini", ".cfg", ".conf"
  ]

  /** The popup's defaults are exactly the extensions the content script renames, in the same order. */
  lemma DefaultsAgree()
    ensures Defaults == Extensions.Supported
  {
  }

  predicate IsLowerAlnum(c: char)
  {
    'a' <= c <= 'z' || '0' <= c <= '9'
  }

  /** The test `/^\.[a-z0-9]+$/`: a dot followed by one or more lower-case letters or digits. */
  predicate IsValidExtension(ext: string)
  {
    |ext| >= 2 && ext[0] == '.' && forall i :: 1 <= i < |ext| ==> IsLowerAlnum(ext[i])
  }

  /** Every default extension passes the popup's own validation. */
  lemma DefaultsAreValid(ext: string)
    requires ext in Defaults
    ensures IsValidExtension(ext)
  {
    var k :| 0 <= k < |Defaults| && Defaults[k] == ext;
    if k < 12 {
      DefaultsValidLow(k);
    } else if k < 23 {
      DefaultsValidMid(k);
    } else {
      DefaultsValidHigh(k);
    }
  }

  lemma DefaultsValidLow(k: nat)
    requires k < 12
    ensures IsValidExtension(Defaults[k])
  {
  }

  lemma DefaultsValidMid(k: nat)
    requires 12 <= k < 23
    ensures IsValidExtension(Defaults[k])
  {
  }

  lemma DefaultsValidHigh(k: nat)
    requires 23 <= k < 34
    ensures IsValidExtension(Defaults[k])
  {
  }

  /** Line 82: lower-case the (trimmed) input and put a dot in front unless it starts with one. */
  function Normalize(input: string): string
  {
    if |input| > 0 && input[0] == '.' then Lower(input) else "." + Lower(input)
  }

  /**
   * The normalised form is lower-case and starts with a dot: the one
   * supplied, or exactly one added in front. Normalising again changes
   * nothing.
   */
  lemma NormalizeSpec(input: string)
    ensures var n := Normalize(input);
      && |n| >= 1 && n[0] == '.' && IsLowerCase(n)
      && (|input| > 0 && input[0] == '.' ==> |n| == |input| && n[1..] == Lower(input[1..]))
      && (!(|input| > 0 && input[0] == '.') ==> |n| == |input| + 1 && n[1..] == Lower(input))
      && Normalize(n) == n
  {
    var n := Normalize(input);
    LowerIsLowerCase(input);
    LowerSpec(input);
    if |input| > 0 && input[0] == '.' {
      LowerSlice(input, 1);
      assert n[0] == LowerChar(input[0]);
      LowerOfLowerCase(n);
    } else {
      assert n[1..] == Lower(input);
      assert IsLowerCase(n) by {
        forall i | 0 <= i < |n| ensures !('A' <= n[i] <= 'Z') {
          if i > 0 {
            assert n[i] == Lower(input)[i - 1];
          }
        }
      }
      LowerOfLowerCase(n);
    }
  }

  /** A string without upper-case letters is its own lower-case form. */
  lemma LowerOfLowerCase(s: string)
    requires IsLowerCase(s)
    ensures Lower(s) == s
  {
    LowerSpec(s);
  }

  /** `Diff` is normalised to `.diff`. */
  lemma NormalizeDiff()
    ensures Normalize("Diff") == ".diff"
  {
    assert Lower("Diff") == "diff";
  }

  /** How `addCustomExtension` ends. */
  datatype AddOutcome = Blank | Invalid | AlreadyDefault | AlreadyAdded | Added(extension: string)

  /** The outcome, the stored custom list afterwards, and whether the input field is cleared. */
  datatype AddResult = AddResult(outcome: AddOutcome, custom: seq<string>, clearInput: bool)

  /**
   * `addCustomExtension` on the stored custom list `custom` and the text
   * `raw` of the input field.
   */
  function AddCustomExtension(custom: seq<string>, raw: string): AddResult
  {
    var input := Trim(raw);
    if input == "" then AddResult(Blank, custom, false)
    else
      var ext := Normalize(input);
      if !IsValidExtension(ext) then AddResult(Invalid, custom, false)
      else if ext in Defaults then AddResult(AlreadyDefault, custom, true)
      else if ext in custom then AddResult(AlreadyAdded, custom, true)
      else AddResult(Added(ext), custom + [ext], true)
  }

  /** Input that is blank after trimming changes nothing, not even the input field. */
  lemma AddBlank(custom: seq<string>, raw: string)
    requires forall i :: 0 <= i < |raw| ==> IsWhitespace(raw[i])
    ensures AddCustomExtension(custom, raw) == AddResult(Blank, custom, false)
  {
    TrimSpec(raw);
  }

  /**
   * An extension is added exactly when the trimmed input is non-empty and
   * its normal form is valid, not a default and not yet in the list; it is
   * then appended at the end. Every other outcome leaves the list as it
   * was, and only a blank or invalid input keeps the input field.
   */
  lemma AddSpec(custom: seq<string>, raw: string)
    ensures var r := AddCustomExtension(custom, raw);
      var ext := Normalize(Trim(raw));
      && (r.outcome.Added? <==>
            Trim(raw) != "" && IsValidExtension(ext) && ext !in Defaults && ext !in custom)
      && (r.outcome.Added? ==> r.outcome.extension == ext && r.custom == custom + [ext])
      && (!r.outcome.Added? ==> r.custom == custom)
      && (r.clearInput <==> !(r.outcome.Blank? || r.outcome.Invalid?))
      && (Trim(raw) != "" && !IsValidExtension(ext) ==> r.outcome == Invalid)
      && (Trim(raw) != "" && IsValidExtension(ext) && ext in Defaults ==> r.outcome == AlreadyDefault)
  {
  }

  /**
   * Typing a default extension, in any letter case, with or without the
   * dot and with surrounding whitespace, is rejected as a default: the list
   * is unchanged and the input field is cleared.
   */
  lemma DefaultRejected(custom: seq<string>, raw: string)
    requires Trim(raw) != "" && Normalize(Trim(raw)) in Defaults
    ensures AddCustomExtension(custom, raw) == AddResult(AlreadyDefault, custom, true)
  {
    DefaultsAreValid(Normalize(Trim(raw)));
  }

  /** No entry occurs twice. */
  predicate NoDuplicates(s: seq<string>)
  {
    forall i, j :: 0 <= i < j < |s| ==> s[i] != s[j]
  }

  /** What the stored custom list always satisfies: valid, non-default, duplicate-free entries. */
  predicate WellFormedCustom(custom: seq<string>)
  {
    NoDuplicates(custom) && forall e :: e in custom ==> IsValidExtension(e) && e !in Defaults
  }

  /** Adding keeps the custom list well formed; in particular a duplicate-free list stays duplicate-free. */
  lemma AddKeepsWellFormed(custom: seq<string>, raw: string)
    requires WellFormedCustom(custom)
    ensures WellFormedCustom(AddCustomExtension(custom, raw).custom)
  {
    AddSpec(custom, raw);
    if AddCustomExtension(custom, raw).outcome.Added? {
      AppendKeepsWellFormed(custom, Normalize(Trim(raw)));
    }
  }

  lemma AppendKeepsWellFormed(custom: seq<string>, ext: string)
    requires WellFormedCustom(custom)
    requires IsValidExtension(ext) && ext !in Defaults && ext !in custom
    ensures WellFormedCustom(custom + [ext])
  {
    var r := custom + [ext];
    forall i, j | 0 <= i < j < |r| ensures r[i] != r[j] {
      if j == |custom| {
        assert r[i] == custom[i];
      } else {
        assert r[i] == custom[i] && r[j] == custom[j];
      }
    }
  }

  /** A list with a new entry in front is duplicate-free when the entry is new and the rest is duplicate-free. */
  lemma NoDuplicatesCons(x: string, s: seq<string>)
    requires x !in s && NoDuplicates(s)
    ensures NoDuplicates([x] + s)
  {
    var r := [x] + s;
    forall i, j | 0 <= i < j < |r| ensures r[i] != r[j] {
      assert r[j] == s[j - 1];
      if i > 0 {
        assert r[i] == s[i - 1];
      }
    }
  }

  /** The tail of a duplicate-free list is duplicate-free and does not hold its head. */
  lemma NoDuplicatesTail(s: seq<string>)
    requires s != [] && NoDuplicates(s)
    ensures s[0] !in s[1..] && NoDuplicates(s[1..])
  {
    var t := s[1..];
    forall j | 0 <= j < |t| ensures t[j] != s[0] {
      assert t[j] == s[j + 1];
    }
    forall i, j | 0 <= i < j < |t| ensures t[i] != t[j] {
      assert t[i] == s[i + 1] && t[j] == s[j + 1];
    }
  }

  /** `removeCustomExtension`'s `filter((ext) => ext !== extension)`. */
  function RemoveCustomExtension(custom: seq<string>, extension: string): seq<string>
  {
    if custom == [] then []
    else (if custom[0] != extension then [custom[0]] else []) + RemoveCustomExtension(custom[1..], extension)
  }

  /**
   * Removal drops every entry equal to `extension` and nothing else: the
   * result holds exactly the other entries, and removing an absent
   * extension changes nothing.
   */
  lemma {:induction false} RemoveSpec(custom: seq<string>, extension: string)
    ensures var r := RemoveCustomExtension(custom, extension);
      && extension !in r
      && (forall y :: y in r <==> y in custom && y != extension)
      && |r| <= |custom|
      && (extension !in custom ==> r == custom)
  {
    if custom != [] {
      RemoveSpec(custom[1..], extension);
      assert custom == [custom[0]] + custom[1..];
    }
  }

  /** Removal preserves order: filtering a concatenation filters each part in turn. */
  lemma {:induction false} RemoveAppend(a: seq<string>, b: seq<string>, extension: string)
    ensures RemoveCustomExtension(a + b, extension)
         == RemoveCustomExtension(a, extension) + RemoveCustomExtension(b, extension)
  {
    if a != [] {
      assert (a + b)[0] == a[0] && (a + b)[1..] == a[1..] + b;
      RemoveAppend(a[1..], b, extension);
    } else {
      assert a + b == b;
    }
  }

  /** Removing the extension just added gives back the list as it was. */
  lemma AddThenRemove(custom: seq<string>, raw: string)
    requires AddCustomExtension(custom, raw).outcome.Added?
    ensures var r := AddCustomExtension(custom, raw);
      RemoveCustomExtension(r.custom, r.outcome.extension) == custom
  {
    AddSpec(custom, raw);
    RemoveAppended(custom, Normalize(Trim(raw)));
  }

  /** Removing an entry that was appended to a list without it restores the list. */
  lemma RemoveAppended(custom: seq<string>, ext: string)
    requires ext !in custom
    ensures RemoveCustomExtension(custom + [ext], ext) == custom
  {
    RemoveAppend(custom, [ext], ext);
    RemoveSpec(custom, ext);
    assert RemoveCustomExtension([ext], ext) == [] by {
      assert [ext][1..] == [];
    }
  }

  /** Removal keeps the custom list well formed. */
  lemma RemoveKeepsWellFormed(custom: seq<string>, extension: string)
    requires WellFormedCustom(custom)
    ensures WellFormedCustom(RemoveCustomExtension(custom, extension))
  {
    RemoveSpec(custom, extension);
    RemoveKeepsNoDuplicates(custom, extension);
  }

  /** Removal keeps a duplicate-free list duplicate-free. */
  lemma {:induction false} RemoveKeepsNoDuplicates(custom: seq<string>, extension: string)
    requires NoDuplicates(custom)
    ensures NoDuplicates(RemoveCustomExtension(custom, extension))
  {
    if custom != [] {
      NoDuplicatesTail(custom);
      RemoveKeepsNoDuplicates(custom[1..], extension);
      RemoveSpec(custom[1..], extension);
      var rest := RemoveCustomExtension(custom[1..], extension);
      if custom[0] != extension {
        NoDuplicatesCons(custom[0], rest);
      } else {
        assert RemoveCustomExtension(custom, extension) == rest;
      }
    }
  }

  /** `.map(s => s.trim())`. */
  function TrimAll(pieces: seq<string>): seq<string>
  {
    seq(|pieces|, i requires 0 <= i < |pieces| => Trim(pieces[i]))
  }

  /** `.filter(Boolean)` on strings: drop the empty ones. */
  function NonEmpty(pieces: seq<string>): seq<string>
  {
    if pieces == [] then []
    else (if pieces[0] != "" then [pieces[0]] else []) + NonEmpty(pieces[1..])
  }

  /** `saveTargetSelectors`: trim, split on ',', trim each piece, drop the empty ones. */
  function ParseSelectors(text: string): seq<string>
  {
    NonEmpty(TrimAll(Split(Trim(text), ',')))
  }

  /** A selector as saved: non-empty, without surrounding whitespace, without a comma. */
  predicate IsSelector(s: string)
  {
    s != "" && IsTrimmed(s) && ',' !in s
  }

  lemma {:induction false} NonEmptyKeeps(pieces: seq<string>, s: string)
    requires s in NonEmpty(pieces)
    ensures s != "" && s in pieces
  {
    if pieces != [] && !(pieces[0] != "" && s == pieces[0]) {
      NonEmptyKeeps(pieces[1..], s);
    }
  }

  lemma {:induction false} NonEmptyOfNonEmpty(pieces: seq<string>)
    requires forall i :: 0 <= i < |pieces| ==> pieces[i] != ""
    ensures NonEmpty(pieces) == pieces
  {
    if pieces != [] {
      NonEmptyOfNonEmpty(pieces[1..]);
      assert pieces == [pieces[0]] + pieces[1..];
    }
  }

  /** Dropping the empty pieces works piece by piece, keeping the order of the rest. */
  lemma {:induction false} NonEmptyAppend(a: seq<string>, b: seq<string>)
    ensures NonEmpty(a + b) == NonEmpty(a) + NonEmpty(b)
  {
    if a == [] {
      assert a + b == b;
    } else {
      assert (a + b)[0] == a[0] && (a + b)[1..] == a[1..] + b;
      NonEmptyAppend(a[1..], b);
    }
  }

  /** Trimming every piece works piece by piece. */
  lemma TrimAllAppend(a: seq<string>, b: seq<string>)
    ensures TrimAll(a + b) == TrimAll(a) + TrimAll(b)
  {
    var ab := a + b;
    var l, la, lb := TrimAll(ab), TrimAll(a), TrimAll(b);
    assert |l| == |la + lb|;
    forall k | 0 <= k < |ab| ensures l[k] == (la + lb)[k] {
      if k < |a| {
        assert ab[k] == a[k];
        assert l[k] == Trim(ab[k]) && la[k] == Trim(a[k]);
      } else {
        assert ab[k] == b[k - |a|];
        assert l[k] == Trim(ab[k]) && lb[k - |a|] == Trim(b[k - |a|]);
      }
    }
  }

  /**
   * Every comma-separated piece that is not blank survives the parse,
   * trimmed and in its place: after the selectors parsed from the pieces
   * before it and before those parsed from the pieces after it.
   */
  lemma ParseKeepsPiece(text: string, i: nat)
    requires i < |Split(Trim(text), ',')| && Trim(Split(Trim(text), ',')[i]) != ""
    ensures var pieces := Split(Trim(text), ',');
      ParseSelectors(text)
        == NonEmpty(TrimAll(pieces[..i])) + [Trim(pieces[i])] + NonEmpty(TrimAll(pieces[i + 1..]))
    ensures Trim(Split(Trim(text), ',')[i]) in ParseSelectors(text)
  {
    var pieces := Split(Trim(text), ',');
    var x := Trim(pieces[i]);
    var before, after := TrimAll(pieces[..i]), TrimAll(pieces[i + 1..]);
    assert pieces == pieces[..i] + [pieces[i]] + pieces[i + 1..];
    TrimAllAppend(pieces[..i] + [pieces[i]], pieces[i + 1..]);
    TrimAllAppend(pieces[..i], [pieces[i]]);
    assert TrimAll([pieces[i]]) == [x];
    NonEmptyAppend(before + [x], after);
    NonEmptyAppend(before, [x]);
    assert NonEmpty([x]) == [x] by {
      assert [x][0] == x && [x][1..] == [];
    }
    assert ParseSelectors(text)[|NonEmpty(before)|] == x;
  }

  /** Every parsed selector is non-empty, trimmed and free of commas. */
  lemma ParsedAreSelectors(text: string)
    ensures forall s :: s in ParseSelectors(text) ==> IsSelector(s)
  {
    var pieces := Split(Trim(text), ',');
    assert forall i :: 0 <= i < |pieces| ==> ',' !in pieces[i];
    PiecesToSelectors(pieces);
  }

  /** Trimming comma-free pieces and dropping the empty ones leaves only selectors. */
  lemma PiecesToSelectors(pieces: seq<string>)
    requires forall i :: 0 <= i < |pieces| ==> ',' !in pieces[i]
    ensures forall s :: s in NonEmpty(TrimAll(pieces)) ==> IsSelector(s)
  {
    var trimmed := TrimAll(pieces);
    forall s | s in NonEmpty(trimmed) ensures IsSelector(s) {
      NonEmptyKeeps(trimmed, s);
      var i :| 0 <= i < |trimmed| && trimmed[i] == s;
      TrimKeepsAbsent(pieces[i], ',');
    }
  }

  /** The selectors with ", " in between, as the panel shows them (line 41). */
  function ShowSelectors(selectors: seq<string>): string
  {
    Join(selectors, ", ")
  }

  /** Each piece but the first gets one blank in front. */
  function SpacePrefixed(pieces: seq<string>): (r: seq<string>)
    ensures |r| == |pieces|
    ensures forall i :: 0 <= i < |pieces| ==> r[i] == " " + pieces[i]
  {
    if pieces == [] then [] else [" " + pieces[0]] + SpacePrefixed(pieces[1..])
  }

  /** Joining with ", " is joining with ',' after putting a blank in front of every later piece. */
  lemma {:induction false} JoinWithBlank(pieces: seq<string>)
    requires |pieces| >= 1
    ensures Join(pieces, ", ") == Join([pieces[0]] + SpacePrefixed(pieces[1..]), [','])
  {
    if |pieces| > 1 {
      var tail := pieces[1..];
      JoinWithBlank(tail);
      var q := [pieces[0]] + SpacePrefixed(tail);
      var q' := [tail[0]] + SpacePrefixed(tail[1..]);
      assert q[1..] == [" " + tail[0]] + SpacePrefixed(tail[1..]);
      JoinHeadBlank(q');
      assert Join(q, [',']) == pieces[0] + [','] + Join(q[1..], [',']);
      assert Join(pieces, ", ") == pieces[0] + ", " + Join(tail, ", ");
      assert ", " == [','] + " ";
    } else {
      assert SpacePrefixed(pieces[1..]) == [];
      assert [pieces[0]] + [] == pieces;
    }
  }

  /** Putting a blank in front of the first piece puts it in front of the join. */
  lemma JoinHeadBlank(q: seq<string>)
    requires |q| >= 1
    ensures Join([" " + q[0]] + q[1..], [',']) == " " + Join(q, [','])
  {
    var h := q[0];
    var rest := q[1..];
    JoinCons(" " + h, rest, [',']);
    JoinCons(h, rest, [',']);
    assert q == [h] + rest;
    if rest != [] {
      ConcatAssoc(" ", h, [','], Join(rest, [',']));
    }
  }

  /** A join of trimmed, non-empty pieces is itself trimmed. */
  lemma {:induction false} JoinTrimmed(pieces: seq<string>)
    requires |pieces| >= 1
    requires forall i :: 0 <= i < |pieces| ==> IsSelector(pieces[i])
    ensures |Join(pieces, ", ")| > 0 && |pieces[0]| > 0
    ensures IsTrimmed(Join(pieces, ", ")) && Join(pieces, ", ")[0] == pieces[0][0]
  {
    if |pieces| > 1 {
      JoinTrimmed(pieces[1..]);
      var rest := Join(pieces[1..], ", ");
      var j := pieces[0] + ", " + rest;
      assert j[0] == pieces[0][0];
      assert j[|j| - 1] == rest[|rest| - 1];
    }
  }

  /**
   * Showing saved selectors and saving them again gives the same list:
   * splitting the ", "-separated text recovers every selector.
   */
  lemma SelectorsRoundTrip(selectors: seq<string>)
    requires forall i :: 0 <= i < |selectors| ==> IsSelector(selectors[i])
    ensures ParseSelectors(ShowSelectors(selectors)) == selectors
  {
    if selectors == [] {
      assert Split("", ',') == [""];
      assert TrimAll([""]) == [""];
      assert NonEmpty([""]) == [] by {
        assert [""][1..] == [];
      }
    } else {
      var text := Join(selectors, ", ");
      JoinTrimmed(selectors);
      TrimOfTrimmed(text);
      var pieces := [selectors[0]] + SpacePrefixed(selectors[1..]);
      ShownPieces(selectors);
      assert Split(Trim(text), ',') == pieces;
      TrimShownPieces(selectors);
      NonEmptyOfNonEmpty(selectors);
    }
  }

  /** The ", "-joined text splits on ',' into the first selector and the others with a blank in front. */
  lemma ShownPieces(selectors: seq<string>)
    requires |selectors| >= 1
    requires forall i :: 0 <= i < |selectors| ==> IsSelector(selectors[i])
    ensures Split(Join(selectors, ", "), ',') == [selectors[0]] + SpacePrefixed(selectors[1..])
  {
    var pieces := [selectors[0]] + SpacePrefixed(selectors[1..]);
    JoinWithBlank(selectors);
    forall i | 0 <= i < |pieces| ensures ',' !in pieces[i] {
      if i > 0 {
        assert pieces[i] == " " + selectors[i];
        assert forall k :: 0 < k < |pieces[i]| ==> pieces[i][k] == selectors[i][k - 1];
      }
    }
    SplitJoin(pieces, ',');
  }

  /** Trimming those pieces gives the selectors back. */
  lemma TrimShownPieces(selectors: seq<string>)
    requires |selectors| >= 1
    requires forall i :: 0 <= i < |selectors| ==> IsSelector(selectors[i])
    ensures TrimAll([selectors[0]] + SpacePrefixed(selectors[1..])) == selectors
  {
    var pieces := [selectors[0]] + SpacePrefixed(selectors[1..]);
    var trimmed := TrimAll(pieces);
    forall i | 0 <= i < |pieces| ensures trimmed[i] == selectors[i] {
      if i == 0 {
        TrimOfTrimmed(selectors[0]);
      } else {
        assert pieces[i] == " " + selectors[i];
        TrimSpacePrefixed(selectors[i]);
      }
    }
  }

  /** Saving what was parsed and parsing it again changes nothing. */
  lemma ParseIdempotent(text: string)
    ensures ParseSelectors(ShowSelectors(ParseSelectors(text))) == ParseSelectors(text)
  {
    var sels := ParseSelectors(text);
    ParsedAreSelectors(text);
    assert forall i :: 0 <= i < |sels| ==> IsSelector(sels[i]) by {
      forall i | 0 <= i < |sels| ensures IsSelector(sels[i]) {
        assert sels[i] in sels;
      }
    }
    SelectorsRoundTrip(sels);
  }

  /** What the panel shows when it opens. */
  datatype Panel = Panel(enabled: bool, custom: seq<string>, selectorsText: string)

  /**
   * Lines 31-42: the toggle shows `extensionEnabled !== false`, a missing
   * custom list or selector list reads as empty, and the selectors are
   * shown joined with ", ".
   */
  function LoadPanel(enabled: StoredValue, custom: Option<seq<string>>, selectors: Option<seq<string>>): Panel
  {
    Panel(IsEnabled(enabled), ListOrEmpty(custom), ShowSelectors(ListOrEmpty(selectors)))
  }

  /**
   * Opening the panel shows it enabled unless the stored flag is false,
   * and shows an empty list for a missing custom list or selector list.
   */
  lemma LoadPanelDefaults(enabled: StoredValue, custom: Option<seq<string>>, selectors: Option<seq<string>>)
    ensures var p := LoadPanel(enabled, custom, selectors);
      && (p.enabled <==> enabled != BoolValue(false))
      && (custom.None? ==> p.custom == [])
      && (selectors.None? ==> p.selectorsText == "")
  {
  }

  /** Saving the selectors the panel shows stores the list that was loaded. */
  lemma LoadThenSave(enabled: StoredValue, custom: Option<seq<string>>, selectors: seq<string>)
    requires forall i :: 0 <= i < |selectors| ==> IsSelector(selectors[i])
    ensures ParseSelectors(LoadPanel(enabled, custom, Some(selectors)).selectorsText) == selectors
  {
    SelectorsRoundTrip(selectors);
  }
}
