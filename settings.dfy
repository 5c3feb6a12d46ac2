// The settings panel: `App.toggleSettings` (app.js:866-871) writes the
// rosters, templates and presets into three text boxes, one entry per line,
// and `Actions.saveSettings` (app.js:665-680) parses the edited text back.

module Settings {
  import opened Inventory
  import opened Text

  /** `parts.map(c => c.trim())`. */
  function TrimAll(parts: seq<string>): seq<string>
  {
    seq(|parts|, i requires 0 <= i < |parts| => Trim(parts[i]))
  }

  /** Each part loses the whitespace at its two ends and nothing else, and
      no result starts or ends with whitespace. */
  lemma TrimAllClean(parts: seq<string>)
    ensures |TrimAll(parts)| == |parts|
    ensures forall i :: 0 <= i < |parts| ==>
              IsTrimmed(TrimAll(parts)[i]) && exists a, b :: PaddedBy(parts[i], a, TrimAll(parts)[i], b)
  {
    forall i | 0 <= i < |parts|
      ensures IsTrimmed(TrimAll(parts)[i]) && exists a, b :: PaddedBy(parts[i], a, TrimAll(parts)[i], b)
    {
      TrimShape(parts[i]);
    }
  }

  /** `parts.filter(c => c)`: drops the empty strings, keeps the order. */
  function NonEmpty(parts: seq<string>): seq<string>
    decreases |parts|
  {
    if |parts| == 0 then []
    else (if parts[0] != "" then [parts[0]] else []) + NonEmpty(parts[1..])
  }

  lemma {:induction false} NonEmptyMembers(parts: seq<string>, x: string)
    ensures x in NonEmpty(parts) <==> x in parts && x != ""
    decreases |parts|
  {
    if |parts| > 0 {
      NonEmptyMembers(parts[1..], x);
      assert parts == [parts[0]] + parts[1..];
    }
  }

  lemma {:induction false} NonEmptyKeepsAll(parts: seq<string>)
    requires forall i :: 0 <= i < |parts| ==> parts[i] != ""
    ensures NonEmpty(parts) == parts
    decreases |parts|
  {
    if |parts| > 0 {
      NonEmptyKeepsAll(parts[1..]);
      assert parts == [parts[0]] + parts[1..];
    }
  }

  /** A roster's characters from the text after the first ':'. */
  function RosterChars(field: string): seq<string>
  {
    NonEmpty(TrimAll(Split(field, ',')))
  }

  /** `newSets[name] = chars`: a name already there keeps its place and gets
      the new list; a new name goes at the end. */
  function Put(sets: seq<NamedRoster>, name: string, chars: seq<string>): seq<NamedRoster>
    decreases |sets|
  {
    if |sets| == 0 then [NamedRoster(name, chars)]
    else if sets[0].name == name then [NamedRoster(name, chars)] + sets[1..]
    else [sets[0]] + Put(sets[1..], name, chars)
  }

  predicate DistinctNames(sets: seq<NamedRoster>)
  {
    forall i, j :: 0 <= i < j < |sets| ==> sets[i].name != sets[j].name
  }

  lemma {:induction false} PutLookup(sets: seq<NamedRoster>, name: string, chars: seq<string>, m: string)
    ensures Lookup(Put(sets, name, chars), m) == if m == name then Some(chars) else Lookup(sets, m)
    decreases |sets|
  {
    if |sets| > 0 && sets[0].name != name {
      PutLookup(sets[1..], name, chars, m);
      if sets[0].name != m {
        assert Put(sets, name, chars)[1..] == Put(sets[1..], name, chars);
      }
    }
  }

  lemma {:induction false} PutKeepsDistinct(sets: seq<NamedRoster>, name: string, chars: seq<string>)
    requires DistinctNames(sets)
    ensures DistinctNames(Put(sets, name, chars))
    decreases |sets|
  {
    if |sets| > 0 {
      var rest := sets[1..];
      assert DistinctNames(rest) by {
        forall i, j | 0 <= i < j < |rest| ensures rest[i].name != rest[j].name {
          assert rest[i] == sets[i + 1] && rest[j] == sets[j + 1];
        }
      }
      assert forall j :: 0 < j < |sets| ==> sets[j] == rest[j - 1];
      var r := Put(sets, name, chars);
      if sets[0].name == name {
        forall i, j | 0 <= i < j < |r| ensures r[i].name != r[j].name {
          if i > 0 {
            assert r[i] == sets[i] && r[j] == sets[j];
          } else {
            assert r[j] == sets[j];
          }
        }
      } else {
        PutKeepsDistinct(rest, name, chars);
        var p := Put(rest, name, chars);
        assert r == [sets[0]] + p;
        forall i, j | 0 <= i < j < |r| ensures r[i].name != r[j].name {
          if i == 0 {
            assert r[j] == p[j - 1];
            assert forall k :: 0 <= k < |rest| ==> rest[k].name != sets[0].name;
            PutEntries(rest, name, chars);
            assert p[j - 1] in p;
            if p[j - 1] in rest {
              var k :| 0 <= k < |rest| && rest[k] == p[j - 1];
            }
          } else {
            assert r[i] == p[i - 1] && r[j] == p[j - 1];
          }
        }
      }
    }
  }

  lemma {:induction false} PutAbsent(sets: seq<NamedRoster>, name: string, chars: seq<string>)
    requires forall i :: 0 <= i < |sets| ==> sets[i].name != name
    ensures Put(sets, name, chars) == sets + [NamedRoster(name, chars)]
    decreases |sets|
  {
    if |sets| > 0 {
      PutAbsent(sets[1..], name, chars);
      assert sets == [sets[0]] + sets[1..];
    }
  }

  /** The rosters read from the lines so far: a line with at least one ':'
      names a roster (trimmed) and lists its characters after the first ':',
      up to any second ':'; other lines are skipped. */
  function RosterLines(lines: seq<string>): seq<NamedRoster>
    decreases |lines|
  {
    if |lines| == 0 then []
    else
      var n := |lines| - 1;
      var p := Split(lines[n], ':');
      var prev := RosterLines(lines[..n]);
      if |p| >= 2 then Put(prev, Trim(p[0]), RosterChars(p[1])) else prev
  }

  /** `Store.charSets` after saving: the parsed rosters, or the default one
      when no line named a roster. */
  function CharSetsFromText(text: string): seq<NamedRoster>
  {
    var sets := RosterLines(Split(text, '\n'));
    if |sets| > 0 then sets else DefaultCharSets
  }

  /** The `lines.forEach` of `saveSettings` that fills `newSets`. */
  method ParseCharSets(text: string) returns (sets: seq<NamedRoster>)
    ensures sets == CharSetsFromText(text)
  {
    var lines := Split(text, '\n');
    var newSets := [];
    var i := 0;
    while i < |lines|
      invariant 0 <= i <= |lines|
      invariant newSets == RosterLines(lines[..i])
    {
      var p := Split(lines[i], ':');
      if |p| >= 2 {
        newSets := Put(newSets, Trim(p[0]), NonEmpty(TrimAll(Split(p[1], ','))));
      }
      assert lines[..i + 1][..i] == lines[..i];
      i := i + 1;
    }
    assert lines[..i] == lines;
    sets := if |newSets| > 0 then newSets else DefaultCharSets;
  }

  /** Whatever the text, the saved rosters are never empty, no name appears
      twice, and every character is non-empty and trimmed. */
  lemma {:induction false} RosterLinesShape(lines: seq<string>)
    ensures DistinctNames(RosterLines(lines))
    ensures forall i, j :: 0 <= i < |RosterLines(lines)| && 0 <= j < |RosterLines(lines)[i].chars| ==>
              RosterLines(lines)[i].chars[j] != "" && Trim(RosterLines(lines)[i].chars[j]) == RosterLines(lines)[i].chars[j]
    decreases |lines|
  {
    if |lines| > 0 {
      var n := |lines| - 1;
      RosterLinesShape(lines[..n]);
      var p := Split(lines[n], ':');
      if |p| >= 2 {
        var prev := RosterLines(lines[..n]);
        PutKeepsDistinct(prev, Trim(p[0]), RosterChars(p[1]));
        RosterCharsClean(p[1]);
        PutEntries(prev, Trim(p[0]), RosterChars(p[1]));
        var r := RosterLines(lines);
        forall i, j | 0 <= i < |r| && 0 <= j < |r[i].chars|
          ensures r[i].chars[j] != "" && Trim(r[i].chars[j]) == r[i].chars[j]
        {
          assert r[i] in Put(prev, Trim(p[0]), RosterChars(p[1]));
          if r[i] in prev {
            var k :| 0 <= k < |prev| && prev[k] == r[i];
          }
        }
      }
    }
  }

  lemma RosterCharsClean(field: string)
    ensures forall j :: 0 <= j < |RosterChars(field)| ==>
              RosterChars(field)[j] != "" && Trim(RosterChars(field)[j]) == RosterChars(field)[j]
  {
    var t := TrimAll(Split(field, ','));
    forall j | 0 <= j < |RosterChars(field)|
      ensures RosterChars(field)[j] != "" && Trim(RosterChars(field)[j]) == RosterChars(field)[j]
    {
      var x := RosterChars(field)[j];
      NonEmptyMembers(t, x);
      var k :| 0 <= k < |t| && t[k] == x;
      TrimIdempotent(Split(field, ',')[k]);
    }
  }

  /** Every entry after a `Put` is an old entry or the new one. */
  lemma {:induction false} PutEntries(sets: seq<NamedRoster>, name: string, chars: seq<string>)
    ensures forall r :: r in Put(sets, name, chars) ==> r in sets || r == NamedRoster(name, chars)
    decreases |sets|
  {
    if |sets| > 0 && sets[0].name != name {
      PutEntries(sets[1..], name, chars);
    }
  }

  /** The last line that names a roster decides its characters. */
  lemma LastLineWins(lines: seq<string>, line: string)
    requires |Split(line, ':')| >= 2
    ensures Lookup(RosterLines(lines + [line]), Trim(Split(line, ':')[0])) == Some(RosterChars(Split(line, ':')[1]))
  {
    var p := Split(line, ':');
    assert (lines + [line])[..|lines|] == lines;
    PutLookup(RosterLines(lines), Trim(p[0]), RosterChars(p[1]), Trim(p[0]));
  }

  /** A line without ':' changes nothing. */
  lemma LineWithoutColonIgnored(lines: seq<string>, line: string)
    requires ':' !in line
    ensures RosterLines(lines + [line]) == RosterLines(lines)
  {
    SplitWithoutSeparator(line, ':');
    assert (lines + [line])[..|lines|] == lines;
  }

  /** `Store.templates` after saving: trimmed lines, blank ones dropped. */
  function TemplatesFromText(text: string): seq<string>
  {
    NonEmpty(TrimAll(Split(text, '\n')))
  }

  /** A preset line has at least three ','-separated fields: name, roster name
      and the '|'-separated targets; fields past the third are ignored. */
  function PresetLines(lines: seq<string>): seq<Preset>
    decreases |lines|
  {
    if |lines| == 0 then []
    else
      var n := |lines| - 1;
      var p := Split(lines[n], ',');
      PresetLines(lines[..n])
        + (if |p| >= 3 then [Preset(Trim(p[0]), Trim(p[1]), TrimAll(Split(p[2], '|')))] else [])
  }

  /** The `pLines.forEach` of `saveSettings` that fills `newPresets`. */
  method ParsePresets(text: string) returns (presets: seq<Preset>)
    ensures presets == PresetLines(Split(text, '\n'))
  {
    var pLines := Split(text, '\n');
    var newPresets := [];
    var i := 0;
    while i < |pLines|
      invariant 0 <= i <= |pLines|
      invariant newPresets == PresetLines(pLines[..i])
    {
      var p := Split(pLines[i], ',');
      if |p| >= 3 {
        newPresets := newPresets + [Preset(Trim(p[0]), Trim(p[1]), TrimAll(Split(p[2], '|')))];
      }
      assert pLines[..i + 1][..i] == pLines[..i];
      i := i + 1;
    }
    assert pLines[..i] == pLines;
    presets := newPresets;
  }

  // ---------------------------------------------------------------------
  // The text the settings panel shows, and reading it back unedited.

  function RosterLine(r: NamedRoster): string
  {
    r.name + ":" + Join(r.chars, ",")
  }

  /** `Object.keys(Store.charSets).map(n => `${n}:${...join(',')}`).join('\n')`. */
  function FormatCharSets(sets: seq<NamedRoster>): string
  {
    Join(seq(|sets|, i requires 0 <= i < |sets| => RosterLine(sets[i])), "\n")
  }

  /** `Store.templates.join('\n')`. */
  function FormatTemplates(templates: seq<string>): string
  {
    Join(templates, "\n")
  }

  function PresetLine(p: Preset): string
  {
    p.name + "," + p.charSet + "," + Join(p.targets, "|")
  }

  /** `Store.presets.map(p => `${p.name},${p.charSet},${...join('|')}`).join('\n')`. */
  function FormatPresets(presets: seq<Preset>): string
  {
    Join(seq(|presets|, i requires 0 <= i < |presets| => PresetLine(presets[i])), "\n")
  }

  /** A piece of text that survives trimming and holds none of `seps`. */
  predicate Clean(s: string, seps: string)
  {
    Trim(s) == s && forall k :: 0 <= k < |s| ==> s[k] !in seps
  }

  predicate RosterRoundTrips(r: NamedRoster)
  {
    Clean(r.name, ":\n")
    && forall j :: 0 <= j < |r.chars| ==> r.chars[j] != "" && Clean(r.chars[j], ",:\n")
  }

  lemma NoSepInJoin(parts: seq<string>, sep: string, seps: string, x: char)
    requires x in seps && x !in sep
    requires forall j :: 0 <= j < |parts| ==> Clean(parts[j], seps)
    ensures x !in Join(parts, sep)
  {
    forall j | 0 <= j < |parts| ensures x !in parts[j] {
      assert Clean(parts[j], seps);
    }
    JoinAvoids(parts, sep, x);
  }

  /** Splitting a joined list whose parts are clean and trimmed and then
      trimming gives the list back. */
  lemma SplitJoinTrimmed(parts: seq<string>, sep: char, seps: string)
    requires |parts| >= 1 && sep in seps
    requires forall j :: 0 <= j < |parts| ==> Clean(parts[j], seps)
    ensures TrimAll(Split(Join(parts, [sep]), sep)) == parts
  {
    forall j | 0 <= j < |parts| ensures sep !in parts[j] {
      assert Clean(parts[j], seps);
    }
    SplitJoin(parts, sep);
  }

  lemma RosterCharsOfJoin(chars: seq<string>)
    requires forall j :: 0 <= j < |chars| ==> chars[j] != "" && Clean(chars[j], ",:\n")
    ensures RosterChars(Join(chars, ",")) == chars
  {
    if |chars| == 0 {
      assert Split("", ',') == [""];
      assert TrimAll([""]) == [""];
    } else {
      assert "," == [','];
      SplitJoinTrimmed(chars, ',', ",:\n");
      NonEmptyKeepsAll(chars);
    }
  }

  lemma RosterLineParses(r: NamedRoster)
    requires RosterRoundTrips(r)
    ensures |Split(RosterLine(r), ':')| >= 2
    ensures Trim(Split(RosterLine(r), ':')[0]) == r.name
    ensures RosterChars(Split(RosterLine(r), ':')[1]) == r.chars
    ensures '\n' !in RosterLine(r)
  {
    var j := Join(r.chars, ",");
    assert forall k :: 0 <= k < |r.chars| ==> Clean(r.chars[k], ",:\n");
    NoSepInJoin(r.chars, ",", ",:\n", ':');
    NoSepInJoin(r.chars, ",", ",:\n", '\n');
    assert ':' !in r.name && '\n' !in r.name;
    assert RosterLine(r) == r.name + [':'] + j;
    SplitAfterFirst(r.name, ':', j);
    SplitWithoutSeparator(j, ':');
    RosterCharsOfJoin(r.chars);
  }

  lemma {:induction false} RosterLinesOfFormatted(sets: seq<NamedRoster>, lines: seq<string>)
    requires DistinctNames(sets)
    requires forall i :: 0 <= i < |sets| ==> RosterRoundTrips(sets[i])
    requires |lines| == |sets| && forall i :: 0 <= i < |sets| ==> lines[i] == RosterLine(sets[i])
    ensures RosterLines(lines) == sets
    decreases |sets|
  {
    if |sets| > 0 {
      var n := |sets| - 1;
      RosterLinesOfFormatted(sets[..n], lines[..n]);
      RosterLineParses(sets[n]);
      PutAbsent(sets[..n], sets[n].name, sets[n].chars);
      assert sets == sets[..n] + [sets[n]];
    }
  }

  /** Opening the settings panel and saving it unedited gives the rosters
      back, when every name and character is clean, names are distinct and
      characters are non-empty. */
  lemma CharSetsRoundTrip(sets: seq<NamedRoster>)
    requires |sets| >= 1 && DistinctNames(sets)
    requires forall i :: 0 <= i < |sets| ==> RosterRoundTrips(sets[i])
    ensures CharSetsFromText(FormatCharSets(sets)) == sets
  {
    var lines := seq(|sets|, i requires 0 <= i < |sets| => RosterLine(sets[i]));
    forall i | 0 <= i < |lines| ensures '\n' !in lines[i] {
      RosterLineParses(sets[i]);
    }
    assert "\n" == ['\n'];
    SplitJoin(lines, '\n');
    RosterLinesOfFormatted(sets, lines);
  }

  /** Templates come back from their text when they are clean and non-empty. */
  lemma TemplatesRoundTrip(templates: seq<string>)
    requires forall j :: 0 <= j < |templates| ==> templates[j] != "" && Clean(templates[j], "\n")
    ensures TemplatesFromText(FormatTemplates(templates)) == templates
  {
    if |templates| == 0 {
      assert Split("", '\n') == [""];
      assert TrimAll([""]) == [""];
    } else {
      assert "\n" == ['\n'];
      SplitJoinTrimmed(templates, '\n', "\n");
      NonEmptyKeepsAll(templates);
    }
  }

  predicate PresetRoundTrips(p: Preset)
  {
    Clean(p.name, ",\n") && Clean(p.charSet, ",\n") && |p.targets| >= 1
    && forall j :: 0 <= j < |p.targets| ==> Clean(p.targets[j], "|,\n")
  }

  lemma PresetLineParses(p: Preset)
    requires PresetRoundTrips(p)
    ensures '\n' !in PresetLine(p)
    ensures |Split(PresetLine(p), ',')| >= 3
    ensures var f := Split(PresetLine(p), ',');
            Preset(Trim(f[0]), Trim(f[1]), TrimAll(Split(f[2], '|'))) == p
  {
    var j := Join(p.targets, "|");
    NoSepInJoin(p.targets, "|", "|,\n", ',');
    NoSepInJoin(p.targets, "|", "|,\n", '\n');
    assert ',' !in p.name && '\n' !in p.name;
    assert ',' !in p.charSet && '\n' !in p.charSet;
    assert PresetLine(p) == p.name + [','] + (p.charSet + [','] + j);
    SplitAfterFirst(p.name, ',', p.charSet + [','] + j);
    SplitAfterFirst(p.charSet, ',', j);
    SplitWithoutSeparator(j, ',');
    assert "|" == ['|'];
    SplitJoinTrimmed(p.targets, '|', "|,\n");
  }

  lemma {:induction false} PresetLinesOfFormatted(presets: seq<Preset>, lines: seq<string>)
    requires forall i :: 0 <= i < |presets| ==> PresetRoundTrips(presets[i])
    requires |lines| == |presets| && forall i :: 0 <= i < |presets| ==> lines[i] == PresetLine(presets[i])
    ensures PresetLines(lines) == presets
    decreases |presets|
  {
    if |presets| > 0 {
      var n := |presets| - 1;
      PresetLinesOfFormatted(presets[..n], lines[..n]);
      PresetLineParses(presets[n]);
      assert presets == presets[..n] + [presets[n]];
    }
  }

  /** Presets come back from their text when every field is clean and each
      has at least one target. */
  lemma PresetsRoundTrip(presets: seq<Preset>)
    requires forall i :: 0 <= i < |presets| ==> PresetRoundTrips(presets[i])
    ensures PresetLines(Split(FormatPresets(presets), '\n')) == presets
  {
    var lines := seq(|presets|, i requires 0 <= i < |presets| => PresetLine(presets[i]));
    if |presets| == 0 {
      assert Split("", '\n') == [""];
      assert Split("", ',') == [""];
    } else {
      forall i | 0 <= i < |lines| ensures '\n' !in lines[i] {
        PresetLineParses(presets[i]);
      }
      assert "\n" == ['\n'];
      SplitJoin(lines, '\n');
      PresetLinesOfFormatted(presets, lines);
    }
  }

  /** A preset with no targets does not come back: its empty target list is
      written as "" and read back as one blank target. */
  lemma EmptyTargetsComeBackBlank(name: string, charSet: string)
    requires Clean(name, ",\n") && Clean(charSet, ",\n")
    ensures PresetLines(Split(FormatPresets([Preset(name, charSet, [])]), '\n')) == [Preset(name, charSet, [""])]
  {
    var line := PresetLine(Preset(name, charSet, []));
    assert ',' !in name && '\n' !in name && ',' !in charSet && '\n' !in charSet;
    assert line == name + [','] + (charSet + [','] + "");
    assert FormatPresets([Preset(name, charSet, [])]) == line;
    SplitWithoutSeparator(line, '\n');
    SplitAfterFirst(name, ',', charSet + [','] + "");
    SplitAfterFirst(charSet, ',', "");
    assert Split("", ',') == [""];
    assert Split("", '|') == [""];
    assert TrimAll([""]) == [""];
    assert [line][..0] == [];
  }
}
