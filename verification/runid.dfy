/** The identifier of a test run, derived from the `time.ctime()` string of its
    start; it names the run's results folder `test_<id>`. */
module RunId {
  import opened Strings
  import opened Decimal

  /** `s.replace('  ', ' ')`: non-overlapping pairs of spaces, left to right. */
  function CollapseDoubleSpaces(s: string): (r: string)
    ensures |r| <= |s|
    decreases |s|
  {
    if |s| >= 2 && s[0] == ' ' && s[1] == ' ' then " " + CollapseDoubleSpaces(s[2..])
    else if |s| == 0 then ""
    else [s[0]] + CollapseDoubleSpaces(s[1..])
  }

  /** `re.sub(r'(\s|:)', '_', s)` */
  function Underscores(s: string): (r: string)
    ensures |r| == |s|
    ensures forall i :: 0 <= i < |r| ==> !IsSpace(r[i]) && r[i] != ':'
  {
    seq(|s|, i requires 0 <= i < |s| => if IsSpace(s[i]) || s[i] == ':' then '_' else s[i])
  }

  /** `fields[1:-1]` */
  function Inner(fields: seq<string>): seq<string>
  {
    if |fields| <= 2 then [] else fields[1..|fields| - 1]
  }

  predicate IsUpper(c: char)
  {
    'A' <= c <= 'Z'
  }

  function LowerChar(c: char): char
  {
    if IsUpper(c) then (c as int - 'A' as int + 'a' as int) as char else c
  }

  /** `s.lower()` on ASCII letters. */
  function Lower(s: string): (r: string)
    ensures |r| == |s|
    ensures forall i :: 0 <= i < |r| ==> !IsUpper(r[i])
  {
    seq(|s|, i requires 0 <= i < |s| => LowerChar(s[i]))
  }

  /** The run identifier: collapse double spaces, turn whitespace and colons into
      `_`, drop the first and last `_`-separated fields, lower-case the rest. */
  function TestExecId(ctime: string): string
  {
    Lower(Join(Inner(Split(Underscores(CollapseDoubleSpaces(ctime)), '_')), '_'))
  }

  /** Whatever the clock says, the identifier holds no whitespace, no colon
      and no upper-case letter, so it can name a folder. */
  lemma TestExecIdIsPlain(ctime: string)
    ensures var id := TestExecId(ctime);
      forall i :: 0 <= i < |id| ==> !IsSpace(id[i]) && id[i] != ':' && !IsUpper(id[i])
  {
    var u := Underscores(CollapseDoubleSpaces(ctime));
    var fields := Split(u, '_');
    var inner := Inner(fields);
    var chars := set x | x in u || x == '_';
    SplitChars(u, '_');
    forall i, x | 0 <= i < |inner| && x in inner[i]
      ensures x in chars
    {
      assert inner[i] == fields[i + 1];
    }
    JoinChars(inner, '_', chars);
    var joined := Join(inner, '_');
    forall k | 0 <= k < |joined|
      ensures Plain(joined[k])
    {
      assert joined[k] in chars;
    }
  }

  /** Neither whitespace nor a colon. */
  predicate Plain(c: char)
  {
    !IsSpace(c) && c != ':'
  }

  /** A field of a `ctime` string: non-empty, letters and digits only. */
  predicate Word(s: string)
  {
    |s| > 0 && forall i :: 0 <= i < |s| ==> ('a' <= s[i] <= 'z' || 'A' <= s[i] <= 'Z' || IsDigit(s[i]))
  }

  /** `%.2d` */
  function TwoDigits(n: nat): (r: string)
    requires n < 100
    ensures Word(r)
  {
    if n < 10 then "0" + NatToDecimal(n) else NatToDecimal(n)
  }

  /** Fields joined by the given separators: `f[0] + seps[0] + f[1] + ... + f[|f|-1]`. */
  function Interleave(f: seq<string>, seps: seq<string>): string
    requires |f| > 0 && |seps| == |f| - 1
    decreases |f|
  {
    if |f| == 1 then f[0] else f[0] + (seps[0] + Interleave(f[1..], seps[1..]))
  }

  /** `time.ctime()`: C's `asctime` format `%.3s %.3s%3d %.2d:%.2d:%.2d %d`. The
      day of the month is right-aligned in three columns, so a one-digit day
      is preceded by two spaces. */
  function CTime(weekday: string, month: string, day: nat, hour: nat, minute: nat, second: nat, year: nat): string
    requires 1 <= day <= 31 && hour < 24 && minute < 60 && second < 62
  {
    Interleave([weekday, month, NatToDecimal(day), TwoDigits(hour), TwoDigits(minute), TwoDigits(second), NatToDecimal(year)],
               [" ", if day < 10 then "  " else " ", " ", ":", ":", " "])
  }

  lemma DecimalIsWord(n: nat)
    ensures Word(NatToDecimal(n))
  {
  }

  lemma WordHasNoSpace(w: string)
    requires Word(w)
    ensures ' ' !in w
  {
    forall i | 0 <= i < |w|
      ensures w[i] != ' '
    {
    }
  }

  lemma WordHasNoUnderscore(w: string)
    requires Word(w)
    ensures '_' !in w
  {
    forall i | 0 <= i < |w|
      ensures w[i] != '_'
    {
    }
  }

  lemma WordIsPlain(w: string)
    requires Word(w)
    ensures forall i :: 0 <= i < |w| ==> Plain(w[i])
  {
  }

  lemma {:induction false} CollapseAfterWord(w: string, rest: string)
    requires ' ' !in w
    ensures CollapseDoubleSpaces(w + rest) == w + CollapseDoubleSpaces(rest)
    decreases |w|
  {
    if |w| > 0 {
      CollapseAfterWord(w[1..], rest);
      assert (w + rest)[1..] == w[1..] + rest;
      assert w == [w[0]] + w[1..];
    } else {
      assert w + rest == rest;
    }
  }

  /** Every separator a single space, a double space or a colon. */
  predicate CTimeSeps(seps: seq<string>)
  {
    forall j :: 0 <= j < |seps| ==> seps[j] == " " || seps[j] == "  " || seps[j] == ":"
  }

  /** The separators with double spaces made single. */
  function SingleSeps(seps: seq<string>): (r: seq<string>)
    ensures |r| == |seps|
  {
    seq(|seps|, j requires 0 <= j < |seps| => if seps[j] == "  " then " " else seps[j])
  }

  lemma InterleaveHead(f: seq<string>, seps: seq<string>)
    requires |f| > 0 && |seps| == |f| - 1 && |f[0]| > 0
    ensures |Interleave(f, seps)| > 0 && Interleave(f, seps)[0] == f[0][0]
  {
  }

  /** Collapsing after a leading separator, when what follows does not start with a space. */
  lemma CollapseSep(sep: string, rest: string)
    requires sep == " " || sep == "  " || sep == ":"
    requires |rest| > 0 && rest[0] != ' '
    ensures CollapseDoubleSpaces(sep + rest) == (if sep == "  " then " " else sep) + CollapseDoubleSpaces(rest)
  {
    var t := sep + rest;
    assert t[|sep|..] == rest;
    if sep == "  " {
      assert t[0] == ' ' && t[1] == ' ';
    } else {
      assert t[1] == rest[0];
    }
  }

  /** Collapsing double spaces leaves space-free fields alone and makes every
      double-space separator single. */
  lemma {:induction false} CollapseInterleave(f: seq<string>, seps: seq<string>)
    requires |f| > 0 && |seps| == |f| - 1 && SpaceFree(f) && CTimeSeps(seps)
    ensures CollapseDoubleSpaces(Interleave(f, seps)) == Interleave(f, SingleSeps(seps))
    decreases |f|
  {
    if |f| == 1 {
      CollapseAfterWord(f[0], "");
      assert f[0] + "" == f[0];
    } else {
      var rest := Interleave(f[1..], seps[1..]);
      CollapseInterleave(f[1..], seps[1..]);
      InterleaveHead(f[1..], seps[1..]);
      CollapseAfterWord(f[0], seps[0] + rest);
      CollapseSep(seps[0], rest);
      assert SingleSeps(seps)[1..] == SingleSeps(seps[1..]);
    }
  }

  /** Separator-free, non-empty fields. */
  predicate SpaceFree(f: seq<string>)
  {
    forall i :: 0 <= i < |f| ==> |f[i]| > 0 && ' ' !in f[i]
  }

  lemma FieldFacts(w: string)
    requires Word(w)
    ensures |w| > 0 && ' ' !in w && '_' !in w && Underscores(w) == w
  {
    WordHasNoSpace(w);
    WordHasNoUnderscore(w);
    WordIsPlain(w);
  }

  lemma UnderscoresConcat(a: string, b: string)
    ensures Underscores(a + b) == Underscores(a) + Underscores(b)
  {
  }

  /** Turning separators into `_` makes the interleaving of fields that hold no
      whitespace or colon their `_`-join. */
  lemma {:induction false} UnderscoresInterleave(f: seq<string>, seps: seq<string>)
    requires |f| > 0 && |seps| == |f| - 1
    requires forall i :: 0 <= i < |f| ==> Underscores(f[i]) == f[i]
    requires forall j :: 0 <= j < |seps| ==> seps[j] == " " || seps[j] == ":"
    ensures Underscores(Interleave(f, seps)) == Join(f, '_')
    decreases |f|
  {
    if |f| > 1 {
      var rest := Interleave(f[1..], seps[1..]);
      UnderscoresInterleave(f[1..], seps[1..]);
      UnderscoresConcat(f[0], seps[0] + rest);
      UnderscoresConcat(seps[0], rest);
      assert Underscores(seps[0]) == "_";
      assert Join(f, '_') == f[0] + ("_" + Join(f[1..], '_'));
    }
  }

  lemma LowerConcat(a: string, b: string)
    ensures Lower(a + b) == Lower(a) + Lower(b)
  {
  }

  lemma LowerDigits(w: string)
    requires forall i :: 0 <= i < |w| ==> IsDigit(w[i]) || w[i] == '_'
    ensures Lower(w) == w
  {
  }

  /** `s.lower()` of each part. */
  function LowerAll(parts: seq<string>): (r: seq<string>)
    ensures |r| == |parts|
  {
    seq(|parts|, i requires 0 <= i < |parts| => Lower(parts[i]))
  }

  lemma {:induction false} LowerJoin(parts: seq<string>)
    ensures Lower(Join(parts, '_')) == Join(LowerAll(parts), '_')
    decreases |parts|
  {
    if |parts| > 1 {
      LowerJoin(parts[1..]);
      LowerConcat(parts[0] + "_", Join(parts[1..], '_'));
      LowerConcat(parts[0], "_");
      assert LowerAll(parts)[1..] == LowerAll(parts[1..]);
    }
  }

  /** For seven fields that hold no space, underscore, other whitespace or
      colon, joined by single or double spaces and colons, the identifier
      is the middle five fields joined by `_`, lower-cased. */
  lemma IdOfInterleave(f: seq<string>, seps: seq<string>)
    requires |f| == 7 && |seps| == 6
    requires forall i :: 0 <= i < 7 ==> |f[i]| > 0 && ' ' !in f[i] && '_' !in f[i] && Underscores(f[i]) == f[i]
    requires CTimeSeps(seps)
    ensures TestExecId(Interleave(f, seps)) == Lower(Join(f[1..6], '_'))
  {
    CollapseInterleave(f, seps);
    var single := SingleSeps(seps);
    assert forall j :: 0 <= j < 6 ==> single[j] == " " || single[j] == ":";
    UnderscoresInterleave(f, single);
    SplitJoin(f, '_');
    assert Inner(f) == f[1..6];
  }

  /** Lower-casing the middle fields touches only the month. */
  lemma LowerFields(f: seq<string>)
    requires |f| == 7
    requires forall i :: 2 <= i < 6 ==> forall k :: 0 <= k < |f[i]| ==> IsDigit(f[i][k])
    ensures Lower(Join(f[1..6], '_')) == Join([Lower(f[1]), f[2], f[3], f[4], f[5]], '_')
  {
    LowerJoin(f[1..6]);
    forall i | 2 <= i < 6
      ensures Lower(f[i]) == f[i]
    {
      LowerDigits(f[i]);
    }
    assert LowerAll(f[1..6]) == [Lower(f[1]), f[2], f[3], f[4], f[5]];
  }

  /** The run identifier of a `ctime` string is the month, in lower case,
      followed by the day, hour, minute and second, joined by `_`: the weekday
      and the year are dropped and the day is never zero-padded. */
  lemma TestExecIdOfCTime(weekday: string, month: string, day: nat, hour: nat, minute: nat, second: nat, year: nat)
    requires Word(weekday) && Word(month)
    requires 1 <= day <= 31 && hour < 24 && minute < 60 && second < 62
    ensures TestExecId(CTime(weekday, month, day, hour, minute, second, year))
         == Join([Lower(month), NatToDecimal(day), TwoDigits(hour), TwoDigits(minute), TwoDigits(second)], '_')
  {
    var f := [weekday, month, NatToDecimal(day), TwoDigits(hour), TwoDigits(minute), TwoDigits(second), NatToDecimal(year)];
    var seps := [" ", if day < 10 then "  " else " ", " ", ":", ":", " "];
    DecimalIsWord(day);
    DecimalIsWord(year);
    assert CTime(weekday, month, day, hour, minute, second, year) == Interleave(f, seps);
    assert forall i :: 0 <= i < |f| ==> Word(f[i]);
    WordFields(f);
    IdOfInterleave(f, seps);
    LowerFields(f);
  }

  lemma WordFields(f: seq<string>)
    requires forall i :: 0 <= i < |f| ==> Word(f[i])
    ensures forall i :: 0 <= i < |f| ==> |f[i]| > 0 && ' ' !in f[i] && '_' !in f[i] && Underscores(f[i]) == f[i]
  {
    forall i | 0 <= i < |f|
      ensures |f[i]| > 0 && ' ' !in f[i] && '_' !in f[i] && Underscores(f[i]) == f[i]
    {
      FieldFacts(f[i]);
    }
  }

  /** The identifier of a run started on Monday 5 January 2021 at 10:20:30. */
  lemma TestExecIdExample()
    ensures TestExecId("Mon Jan  5 10:20:30 2021") == "jan_5_10_20_30"
  {
    ExampleCTime();
    TestExecIdOfCTime("Mon", "Jan", 5, 10, 20, 30, 2021);
    ExampleFields();
    ExampleJoin();
  }

  lemma ExampleJoin()
    ensures Join([Lower("Jan"), "5", "10", "20", "30"], '_') == "jan_5_10_20_30"
  {
    assert Lower("Jan") == "jan";
    var p := ["jan", "5", "10", "20", "30"];
    assert Join(p[4..], '_') == "30";
    assert Join(p[3..], '_') == "20_30";
    assert Join(p[2..], '_') == "10_20_30";
    assert Join(p[1..], '_') == "5_10_20_30";
  }

  lemma ExampleFields()
    ensures NatToDecimal(5) == "5" && TwoDigits(10) == "10" && TwoDigits(20) == "20" && TwoDigits(30) == "30"
  {
    assert NatToDecimal(1) == "1" && NatToDecimal(2) == "2" && NatToDecimal(3) == "3" && NatToDecimal(0) == "0";
  }

  lemma ExampleYear()
    ensures NatToDecimal(2021) == "2021"
  {
    assert NatToDecimal(2) == "2";
    assert NatToDecimal(20) == "20";
    assert NatToDecimal(202) == "202";
    assert NatToDecimal(1) == "1";
  }

  lemma ExampleClock()
    ensures Interleave(["10", "20", "30", "2021"], [":", ":", " "]) == "10:20:30 2021"
  {
    var f := ["10", "20", "30", "2021"];
    var seps := [":", ":", " "];
    assert Interleave(f[3..], seps[3..]) == "2021";
    assert Interleave(f[2..], seps[2..]) == "30 2021";
    assert Interleave(f[1..], seps[1..]) == "20:30 2021";
  }

  lemma InterleaveStep(f: seq<string>, seps: seq<string>)
    requires |f| > 1 && |seps| == |f| - 1
    ensures Interleave(f, seps) == f[0] + (seps[0] + Interleave(f[1..], seps[1..]))
  {
  }

  lemma ExampleGlue()
    ensures "Mon" + (" " + ("Jan" + ("  " + ("5" + (" " + "10:20:30 2021")))))
         == "Mon Jan  5 10:20:30 2021"
  {
  }

  lemma ExampleLine()
    ensures Interleave(["Mon", "Jan", "5", "10", "20", "30", "2021"], [" ", "  ", " ", ":", ":", " "])
         == "Mon Jan  5 10:20:30 2021"
  {
    var f := ["Mon", "Jan", "5", "10", "20", "30", "2021"];
    var seps := [" ", "  ", " ", ":", ":", " "];
    InterleaveStep(f, seps);
    InterleaveStep(f[1..], seps[1..]);
    InterleaveStep(f[2..], seps[2..]);
    assert f[1..][1..] == f[2..] && seps[1..][1..] == seps[2..];
    assert f[2..][1..] == ["10", "20", "30", "2021"] && seps[2..][1..] == [":", ":", " "];
    ExampleClock();
    ExampleGlue();
  }

  lemma ExampleCTime()
    ensures CTime("Mon", "Jan", 5, 10, 20, 30, 2021) == "Mon Jan  5 10:20:30 2021"
  {
    ExampleFields();
    ExampleYear();
    ExampleLine();
  }
}
