/** The string handling of the command-line validators in find_lines.py: the
    parsing of the bins option, the splitting of the thresholds option and the
    output directory name built from the other options. */
module FindLines {

  import opened Errors

  /** An option value as the validators receive it: the raw command-line text, or
      a mapping read from a configuration file. */
  datatype Input<T> = Text(text: string) | Dict(entries: map<string, T>)

  /** str.split(sep) with a one-character separator. */
  function Split(s: string, sep: char): (parts: seq<string>)
    ensures |parts| >= 1
    ensures forall k :: 0 <= k < |parts| ==> sep !in parts[k]
    decreases |s|
  {
    if |s| == 0 then [""]
    else
      var rest := Split(s[1..], sep);
      if s[0] == sep then [""] + rest else [[s[0]] + rest[0]] + rest[1..]
  }

  /** sep.join(parts). */
  function Join(parts: seq<string>, sep: char): string
  {
    if |parts| == 0 then "" else if |parts| == 1 then parts[0] else parts[0] + [sep] + Join(parts[1..], sep)
  }

  /** k separators split a string into k + 1 fields. */
  lemma {:induction false} SplitCount(s: string, sep: char)
    ensures |Split(s, sep)| == multiset(s)[sep] + 1
    decreases |s|
  {
    if |s| > 0 {
      SplitCount(s[1..], sep);
      assert s == [s[0]] + s[1..];
      assert multiset(s) == multiset{s[0]} + multiset(s[1..]);
    }
  }

  /** Joining the fields again with the separator gives back the string. */
  lemma {:induction false} JoinSplit(s: string, sep: char)
    ensures Join(Split(s, sep), sep) == s
    decreases |s|
  {
    if |s| > 0 {
      var rest := Split(s[1..], sep);
      JoinSplit(s[1..], sep);
      if s[0] == sep {
        assert Split(s, sep)[1..] == rest;
      } else {
        var parts := Split(s, sep);
        if |rest| == 1 {
          assert parts == [[s[0]] + rest[0]];
        } else {
          assert parts[1..] == rest[1..];
          assert Join(rest, sep) == rest[0] + [sep] + Join(rest[1..], sep);
        }
      }
    }
    assert s == [] ==> Split(s, sep) == [""];
  }

  /** A field without the separator followed by the separator splits off as one field. */
  lemma {:induction false} SplitPrefix(a: string, sep: char, t: string)
    requires sep !in a
    ensures Split(a + [sep] + t, sep) == [a] + Split(t, sep)
    ensures Split(a, sep) == [a]
    decreases |a|
  {
    if |a| > 0 {
      SplitPrefix(a[1..], sep, t);
      assert (a + [sep] + t)[1..] == a[1..] + [sep] + t;
      assert [a[0]] + a[1..] == a;
    } else {
      assert a + [sep] + t == [sep] + t;
      assert ([sep] + t)[1..] == t;
    }
  }

  /** Splitting a join of fields free of the separator gives back the fields. */
  lemma {:induction false} SplitJoin(parts: seq<string>, sep: char)
    requires |parts| >= 1 && forall k :: 0 <= k < |parts| ==> sep !in parts[k]
    ensures Split(Join(parts, sep), sep) == parts
    decreases |parts|
  {
    if |parts| == 1 {
      SplitPrefix(parts[0], sep, "");
    } else {
      var rest := Join(parts[1..], sep);
      assert Join(parts, sep) == parts[0] + [sep] + rest;
      SplitJoin(parts[1..], sep);
      SplitPrefix(parts[0], sep, rest);
      assert [parts[0]] + parts[1..] == parts;
    }
  }

  predicate IsDigit(c: char)
  {
    '0' <= c <= '9'
  }

  predicate IsDigits(s: string)
  {
    |s| > 0 && forall k :: 0 <= k < |s| ==> IsDigit(s[k])
  }

  /** The value of a string of decimal digits. */
  function DigitsValue(s: string): nat
    requires forall k :: 0 <= k < |s| ==> IsDigit(s[k])
  {
    if |s| == 0 then 0
    else
      assert IsDigit(s[|s| - 1]);
      10 * DigitsValue(s[..|s| - 1]) + (s[|s| - 1] as int - '0' as int)
  }

  /** int(s) for ASCII decimal literals with an optional sign; anything else raises
      ValueError. */
  function ParseInt(s: string): (r: Result<int>)
    ensures r.Ok? <==> IsDigits(s) || (|s| > 0 && (s[0] == '+' || s[0] == '-') && IsDigits(s[1..]))
    ensures r.Err? ==> r.error == ValueError("invalid literal for int() with base 10: '" + s + "'")
  {
    if IsDigits(s) then Ok(DigitsValue(s))
    else if |s| > 0 && s[0] == '+' && IsDigits(s[1..]) then Ok(DigitsValue(s[1..]))
    else if |s| > 0 && s[0] == '-' && IsDigits(s[1..]) then Ok(-(DigitsValue(s[1..]) as int))
    else Err(ValueError("invalid literal for int() with base 10: '" + s + "'"))
  }

  /** str(n) for a natural number. */
  function ShowNat(n: nat): (s: string)
    ensures IsDigits(s)
  {
    var d := ['0' + (n % 10) as char];
    if n < 10 then d else ShowNat(n / 10) + d
  }

  /** str(n). */
  function Show(n: int): string
  {
    if n < 0 then "-" + ShowNat(-n) else ShowNat(n)
  }

  lemma {:induction false} DigitsShowNat(n: nat)
    ensures DigitsValue(ShowNat(n)) == n
  {
    if n >= 10 {
      DigitsShowNat(n / 10);
      var s := ShowNat(n);
      assert s[..|s| - 1] == ShowNat(n / 10);
    }
  }

  /** int(str(n)) == n. */
  lemma ParseShow(n: int)
    ensures ParseInt(Show(n)) == Ok(n)
  {
    if n < 0 {
      DigitsShowNat(-n);
      assert Show(n)[1..] == ShowNat(-n);
    } else {
      DigitsShowNat(n);
    }
  }

  /** str(n) never contains the letter x. */
  lemma ShowHasNoX(n: int)
    ensures 'x' !in Show(n)
  {
    var s := ShowNat(if n < 0 then -n else n);
    assert forall k :: 0 <= k < |s| ==> s[k] != 'x';
  }

  /** parts[k] is the first field int() rejects. */
  predicate FirstRejected(parts: seq<string>, k: int)
    requires 0 <= k < |parts|
  {
    ParseInt(parts[k]).Err? && forall j :: 0 <= j < k ==> ParseInt(parts[j]).Ok?
  }

  /** tuple(int(v) for v in parts): the values in order, or the error of the first
      field int() rejects. */
  function ParseAll(parts: seq<string>): (r: Result<seq<int>>)
    ensures r.Ok? <==> forall k :: 0 <= k < |parts| ==> ParseInt(parts[k]).Ok?
    ensures r.Ok? ==> |r.value| == |parts| && forall k :: 0 <= k < |parts| ==> r.value[k] == ParseInt(parts[k]).value
    ensures r.Err? ==> exists k :: 0 <= k < |parts| && FirstRejected(parts, k) && r.error == ParseInt(parts[k]).error
  {
    if |parts| == 0 then Ok([])
    else match ParseInt(parts[0])
      case Err(e) => Err(e)
      case Ok(v) =>
        match ParseAll(parts[1..])
        case Err(e) => Err(e)
        case Ok(vs) => Ok([v] + vs)
  }

  const TupleArgumentsMessage := "tuple expected at most 1 argument, got 2"

  /** handle_bins: "AxB" gives the integers of the fields; text without an x
      raises, because tuple(int(bins), int(bins)) passes tuple two arguments; a
      mapping gives its "r" and "theta" entries. */
  function HandleBins(bins: Input<int>): (r: Result<seq<int>>)
    ensures bins.Text? && 'x' in bins.text ==> r == ParseAll(Split(bins.text, 'x'))
    ensures bins.Dict? && "r" in bins.entries && "theta" in bins.entries ==>
      r == Ok([bins.entries["r"], bins.entries["theta"]])
    ensures bins.Dict? && "r" !in bins.entries ==> r == Err(KeyError("r"))
    ensures bins.Dict? && "r" in bins.entries && "theta" !in bins.entries ==> r == Err(KeyError("theta"))
  {
    match bins
    case Text(s) =>
      if 'x' in s then ParseAll(Split(s, 'x'))
      else (match ParseInt(s) case Err(e) => Err(e) case Ok(_) => Err(TypeError(TupleArgumentsMessage)))
    case Dict(d) =>
      if "r" !in d then Err(KeyError("r"))
      else if "theta" !in d then Err(KeyError("theta"))
      else Ok([d["r"], d["theta"]])
  }

  /** "AxB" parses to (A, B). */
  lemma HandleBinsPair(a: int, b: int)
    ensures HandleBins(Text(Show(a) + "x" + Show(b))) == Ok([a, b])
  {
    var s := Show(a) + "x" + Show(b);
    ShowHasNoX(a);
    ShowHasNoX(b);
    assert s == Show(a) + ['x'] + Show(b);
    assert s[|Show(a)|] == 'x';
    SplitPrefix(Show(a), 'x', Show(b));
    SplitPrefix(Show(b), 'x', "");
    assert Split(s, 'x') == [Show(a), Show(b)];
    ParseShow(a);
    ParseShow(b);
    ParseAllPair(Show(a), Show(b), a, b);
  }

  lemma ParseAllPair(sa: string, sb: string, a: int, b: int)
    requires ParseInt(sa) == Ok(a) && ParseInt(sb) == Ok(b)
    ensures ParseAll([sa, sb]) == Ok([a, b])
  {
    var parts := [sa, sb];
    assert parts[0] == sa && parts[1] == sb;
    var r := ParseAll(parts);
    assert r.Ok?;
    assert r.value[0] == a && r.value[1] == b;
    assert r.value == [a, b];
  }

  /** Text with k letters x gives k + 1 integers when it parses; its fields are the
      pieces between the x's. */
  lemma HandleBinsFields(s: string)
    requires 'x' in s && HandleBins(Text(s)).Ok?
    ensures |HandleBins(Text(s)).value| == multiset(s)['x'] + 1
    ensures Join(Split(s, 'x'), 'x') == s
  {
    SplitCount(s, 'x');
    JoinSplit(s, 'x');
  }

  /** Text without an x never parses: it raises TypeError when int() accepts it,
      and int()'s ValueError otherwise, since the arguments are evaluated first. */
  lemma HandleBinsWithoutX(s: string)
    requires 'x' !in s
    ensures HandleBins(Text(s)).Err?
    ensures HandleBins(Text(s)).error == TypeError(TupleArgumentsMessage) <==> ParseInt(s).Ok?
    ensures ParseInt(s).Err? ==> HandleBins(Text(s)).error == ParseInt(s).error
  {
  }

  /** The default value "500" of the bins option therefore raises TypeError. */
  lemma DefaultBinsRaise()
    ensures HandleBins(Text("500")) == Err(TypeError(TupleArgumentsMessage))
  {
    assert IsDigits("500");
  }

  /** The split structure of handle_thresholds, whose float() conversion is not
      modelled: the comma-separated fields of the text, or the "xy" and "rtheta"
      entries of a mapping. */
  datatype Thresholds = Fields(fields: seq<string>) | Pair(xy: real, rtheta: real)

  function HandleThresholds(thresholds: Input<real>): (r: Result<Thresholds>)
    ensures thresholds.Text? ==> (r.Ok? && r.value.Fields? &&
      |r.value.fields| == multiset(thresholds.text)[','] + 1 && Join(r.value.fields, ',') == thresholds.text)
    ensures thresholds.Dict? ==>
      (r.Ok? <==> "xy" in thresholds.entries && "rtheta" in thresholds.entries)
    ensures r.Ok? && thresholds.Dict? ==> r.value == Pair(thresholds.entries["xy"], thresholds.entries["rtheta"])
    ensures thresholds.Dict? && "xy" !in thresholds.entries ==> r == Err(KeyError("xy"))
    ensures thresholds.Dict? && "xy" in thresholds.entries && "rtheta" !in thresholds.entries ==> r == Err(KeyError("rtheta"))
  {
    match thresholds
    case Text(s) =>
      SplitCount(s, ',');
      JoinSplit(s, ',');
      Ok(Fields(Split(s, ',')))
    case Dict(d) =>
      if "xy" !in d then Err(KeyError("xy"))
      else if "rtheta" !in d then Err(KeyError("rtheta"))
      else Ok(Pair(d["xy"], d["rtheta"]))
  }

  /** s.replace(a, b) for single characters. */
  function ReplaceChar(s: string, a: char, b: char): (r: string)
    ensures |r| == |s|
    ensures forall k :: 0 <= k < |s| ==> r[k] == if s[k] == a then b else s[k]
  {
    seq(|s|, k requires 0 <= k < |s| => if s[k] == a then b else s[k])
  }

  /** s.replace(c, ""): s without any c, every other character kept in order. */
  function RemoveChar(s: string, c: char): (r: string)
    ensures c !in r
    ensures forall x :: x != c ==> multiset(r)[x] == multiset(s)[x]
  {
    if |s| == 0 then ""
    else
      var rest := RemoveChar(s[1..], c);
      assert s == [s[0]] + s[1..];
      if s[0] == c then rest else [s[0]] + rest
  }

  /** Removing a character works piece by piece, so the kept characters stay in order. */
  lemma {:induction false} RemoveConcat(a: string, b: string, c: char)
    ensures RemoveChar(a + b, c) == RemoveChar(a, c) + RemoveChar(b, c)
    decreases |a|
  {
    if |a| > 0 {
      RemoveConcat(a[1..], b, c);
      assert (a + b)[1..] == a[1..] + b;
      assert (a + b)[0] == a[0];
    } else {
      assert a + b == b;
    }
  }

  /** One character is dropped when it is c and kept otherwise. */
  lemma RemoveOne(x: char, c: char)
    ensures RemoveChar([x], c) == if x == c then [] else [x]
  {
    assert [x][1..] == [];
  }

  /** f"{key}={value}" with every / turned into a backslash. */
  function Entry(key: string, value: string): string
  {
    ReplaceChar(key + "=" + value, '/', '\\')
  }

  function Entries(fields: seq<(string, string)>): (entries: seq<string>)
    ensures |entries| == |fields|
  {
    seq(|fields|, k requires 0 <= k < |fields| => Entry(fields[k].0, fields[k].1))
  }

  /** The generated output directory name: the key=value entries of the validated
      fields, in field order, joined by "_", then . turned into , and spaces removed. */
  function OutputName(fields: seq<(string, string)>): string
  {
    RemoveChar(ReplaceChar(Join(Entries(fields), '_'), '.', ','), ' ')
  }

  lemma {:induction false} JoinKeeps(parts: seq<string>, sep: char, c: char)
    requires c != sep && forall k :: 0 <= k < |parts| ==> c !in parts[k]
    ensures c !in Join(parts, sep)
    decreases |parts|
  {
    if |parts| > 1 {
      JoinKeeps(parts[1..], sep, c);
    }
  }

  /** The generated name contains no /, no . and no space. */
  lemma OutputNameClean(fields: seq<(string, string)>)
    ensures '/' !in OutputName(fields) && '.' !in OutputName(fields) && ' ' !in OutputName(fields)
  {
    var entries := Entries(fields);
    forall k | 0 <= k < |entries|
      ensures '/' !in entries[k]
    {
      var e := entries[k];
      assert forall i :: 0 <= i < |e| ==> e[i] != '/';
    }
    JoinKeeps(entries, '_', '/');
    var joined := Join(entries, '_');
    var replaced := ReplaceChar(joined, '.', ',');
    assert '/' !in replaced;
    assert '.' !in replaced by {
      assert forall i :: 0 <= i < |replaced| ==> replaced[i] != '.';
    }
    var name := RemoveChar(replaced, ' ');
    assert multiset(name)['/'] == multiset(replaced)['/'] == 0;
    assert multiset(name)['.'] == multiset(replaced)['.'] == 0;
  }

  /** Removing a character that does not occur changes nothing. */
  lemma {:induction false} RemoveAbsent(s: string, c: char)
    requires c !in s
    ensures RemoveChar(s, c) == s
    decreases |s|
  {
    if |s| > 0 {
      RemoveAbsent(s[1..], c);
      assert [s[0]] + s[1..] == s;
    }
  }

  predicate Plain(s: string)
  {
    '/' !in s && '.' !in s && ' ' !in s
  }

  /** For keys and values without /, . or space the generated name is exactly the
      key=value entries joined by "_", in field order. */
  lemma OutputNamePlain(fields: seq<(string, string)>)
    requires forall k :: 0 <= k < |fields| ==> Plain(fields[k].0) && Plain(fields[k].1)
    ensures OutputName(fields) == Join(seq(|fields|, k requires 0 <= k < |fields| => fields[k].0 + "=" + fields[k].1), '_')
  {
    var plain := seq(|fields|, k requires 0 <= k < |fields| => fields[k].0 + "=" + fields[k].1);
    forall k | 0 <= k < |fields|
      ensures Entries(fields)[k] == plain[k] && '.' !in plain[k] && ' ' !in plain[k]
    {
      var e := plain[k];
      assert e == fields[k].0 + "=" + fields[k].1;
      assert forall i :: 0 <= i < |e| ==> e[i] != '/' && e[i] != '.' && e[i] != ' ' by {
        forall i | 0 <= i < |e|
          ensures e[i] != '/' && e[i] != '.' && e[i] != ' '
        {
          if i < |fields[k].0| {
            assert e[i] == fields[k].0[i];
          } else if i > |fields[k].0| {
            assert e[i] == fields[k].1[i - |fields[k].0| - 1];
          }
        }
      }
      assert Entries(fields)[k] == ReplaceChar(e, '/', '\\');
    }
    assert Entries(fields) == plain;
    var joined := Join(plain, '_');
    JoinKeeps(plain, '_', '.');
    JoinKeeps(plain, '_', ' ');
    assert ReplaceChar(joined, '.', ',') == joined;
    RemoveAbsent(joined, ' ');
  }

  /** The output option: an empty path becomes found_lines/<generated name>, any
      other path is placed under found_lines. */
  function HandleOutput(path: string, fields: seq<(string, string)>): (dir: string)
    ensures path == "" ==> dir == "found_lines/" + OutputName(fields)
    ensures path != "" ==> dir == "found_lines/" + path
  {
    "found_lines/" + (if path == "" then OutputName(fields) else path)
  }
}
