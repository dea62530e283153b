/**
 * The pure helpers of pwnagotchi/utils.py: `secs_to_hhmmss`, `deep_merge`
 * and the parsing half of `iface_channels`.
 */
module Utils {
  import opened Wrappers
  import opened Python
  import opened Text

  // ---------------------------------------------------------------- secs_to_hhmmss

  /** `secs_to_hhmmss(secs)`: two `divmod`s by 60 (floor division, which is
      Dafny's division for a positive divisor), printed `'%02d:%02d:%02d'`. */
  function SecsToHhmmss(secs: int): (r: string)
    ensures |Split(r, ':')| == 3
    ensures var p := Split(r, ':');
            && |p[0]| >= 2 && |p[1]| == 2 && |p[2]| == 2
            && AllDigits(p[1]) && DigitsValue(p[1]) < 60
            && AllDigits(p[2]) && DigitsValue(p[2]) < 60
    ensures secs >= 0 ==> AllDigits(Split(r, ':')[0])
  {
    var mins, s := secs / 60, secs % 60;
    var hours, m := mins / 60, mins % 60;
    ClockSplit(hours, m, s);
    Pad2(hours) + ":" + Pad2(m) + ":" + Pad2(s)
  }

  lemma DivModSixty(secs: int)
    ensures (secs / 60 / 60) * 3600 + (secs / 60 % 60) * 60 + secs % 60 == secs
  {
    var mins := secs / 60;
    assert secs == mins * 60 + secs % 60;
    assert mins == (mins / 60) * 60 + mins % 60;
  }

  lemma ClockSplit(h: int, m: int, s: int)
    ensures Split(Pad2(h) + ":" + Pad2(m) + ":" + Pad2(s), ':') == [Pad2(h), Pad2(m), Pad2(s)]
  {
    var parts := [Pad2(h), Pad2(m), Pad2(s)];
    assert parts[1..][1..] == [Pad2(s)];
    assert Join(parts[1..], ':') == Pad2(m) + ":" + Pad2(s);
    assert Join(parts, ':') == Pad2(h) + ":" + Pad2(m) + ":" + Pad2(s);
    SplitJoin(parts, ':');
  }

  /** Reads an `H:MM:SS` clock back into seconds. */
  function ClockSeconds(text: string): Option<int> {
    var p := Split(text, ':');
    if |p| != 3 then None
    else HmsSeconds(ParseInt(p[0]), ParseInt(p[1]), ParseInt(p[2]))
  }

  function HmsSeconds(h: Option<int>, m: Option<int>, s: Option<int>): Option<int> {
    if h.Some? && m.Some? && s.Some? then Some(h.value * 3600 + m.value * 60 + s.value) else None
  }

  /** The printed clock denotes exactly the seconds it was made from. */
  lemma HhmmssRoundTrip(secs: int)
    ensures ClockSeconds(SecsToHhmmss(secs)) == Some(secs)
  {
    var hours, m, s := secs / 60 / 60, secs / 60 % 60, secs % 60;
    var text := Pad2(hours) + ":" + Pad2(m) + ":" + Pad2(s);
    assert SecsToHhmmss(secs) == text;
    ClockOfFields(hours, m, s);
    var total := hours * 3600 + m * 60 + s;
    assert ClockSeconds(text) == Some(total);
    DivModSixty(secs);
    assert total == secs;
  }

  lemma ClockOfFields(h: int, m: int, s: int)
    ensures ClockSeconds(Pad2(h) + ":" + Pad2(m) + ":" + Pad2(s)) == Some(h * 3600 + m * 60 + s)
  {
    var a, b, c := Pad2(h), Pad2(m), Pad2(s);
    assert ClockSeconds(a + ":" + b + ":" + c) == HmsSeconds(ParseInt(a), ParseInt(b), ParseInt(c)) by {
      ClockSplit(h, m, s);
    }
    assert ParseInt(a) == Some(h) by { ParseIntOfPad2(h); }
    assert ParseInt(b) == Some(m) by { ParseIntOfPad2(m); }
    assert ParseInt(c) == Some(s) by { ParseIntOfPad2(s); }
  }

  // ---------------------------------------------------------------- deep_merge

  /** `deep_merge(to_merge, default)`: when both are dictionaries, every key of
      `default` missing from `to_merge` is added with its default value, and
      keys present in both are merged recursively; in every other case
      `to_merge` is returned as it is. The source updates `to_merge` in
      place; the model returns the updated value. */
  function DeepMerge(toMerge: PyValue, default: PyValue): (r: PyValue)
    ensures !(toMerge.PDict? && default.PDict?) ==> r == toMerge
    ensures toMerge.PDict? && default.PDict? ==>
              && r.PDict?
              && r.entries.Keys == toMerge.entries.Keys + default.entries.Keys
              && (forall k :: k in toMerge.entries && !toMerge.entries[k].PDict? ==> r.entries[k] == toMerge.entries[k])
              && (forall k :: k in toMerge.entries && k !in default.entries ==> r.entries[k] == toMerge.entries[k])
              && (forall k :: k in default.entries && k !in toMerge.entries ==> r.entries[k] == default.entries[k])
              && (forall k :: k in toMerge.entries && k in default.entries ==>
                    r.entries[k] == DeepMerge(toMerge.entries[k], default.entries[k]))
  {
    if toMerge.PDict? && default.PDict? then
      var a, d := toMerge.entries, default.entries;
      PDict(map k | k in a.Keys + d.Keys ::
              if k !in a then d[k]
              else if k in d then DeepMerge(a[k], d[k])
              else a[k])
    else toMerge
  }

  /** Merging a value with itself changes nothing. */
  lemma {:induction false} DeepMergeSelf(x: PyValue)
    ensures DeepMerge(x, x) == x
  {
    if x.PDict? {
      forall k | k in x.entries
        ensures DeepMerge(x, x).entries[k] == x.entries[k]
      {
        DeepMergeSelf(x.entries[k]);
      }
    }
  }

  /** Applying the same defaults twice is the same as applying them once. */
  lemma {:induction false} DeepMergeIdempotent(toMerge: PyValue, default: PyValue)
    ensures DeepMerge(DeepMerge(toMerge, default), default) == DeepMerge(toMerge, default)
  {
    if toMerge.PDict? && default.PDict? {
      var once := DeepMerge(toMerge, default);
      forall k | k in once.entries
        ensures DeepMerge(once, default).entries[k] == once.entries[k]
      {
        if k in default.entries {
          if k in toMerge.entries {
            DeepMergeIdempotent(toMerge.entries[k], default.entries[k]);
          } else {
            DeepMergeSelf(default.entries[k]);
          }
        }
      }
    }
  }

  /** Every key path of `default` is present in `merged`, down to the first
      level at which one of the two stops being a dictionary. */
  ghost predicate Covers(merged: PyValue, default: PyValue) {
    merged.PDict? && default.PDict? ==>
      && default.entries.Keys <= merged.entries.Keys
      && forall k :: k in default.entries ==> Covers(merged.entries[k], default.entries[k])
  }

  /** After merging, no default is missing from the configuration. */
  lemma {:induction false} DeepMergeCovers(toMerge: PyValue, default: PyValue)
    ensures Covers(DeepMerge(toMerge, default), default)
  {
    if toMerge.PDict? && default.PDict? {
      var r := DeepMerge(toMerge, default);
      forall k | k in default.entries
        ensures Covers(r.entries[k], default.entries[k])
      {
        if k in toMerge.entries {
          DeepMergeCovers(toMerge.entries[k], default.entries[k]);
        } else {
          CoversSelf(default.entries[k]);
        }
      }
    }
  }

  lemma {:induction false} CoversSelf(x: PyValue)
    ensures Covers(x, x)
  {
    if x.PDict? {
      forall k | k in x.entries
        ensures Covers(x.entries[k], x.entries[k])
      {
        CoversSelf(x.entries[k]);
      }
    }
  }

  /** Every setting of `toMerge` survives in `merged`: at each key path of
      `toMerge`, a value that is not a dictionary is kept as it is, and a
      dictionary stays a dictionary holding at least its keys. */
  ghost predicate Keeps(merged: PyValue, toMerge: PyValue) {
    if toMerge.PDict? then
      && merged.PDict?
      && toMerge.entries.Keys <= merged.entries.Keys
      && forall k :: k in toMerge.entries ==> Keeps(merged.entries[k], toMerge.entries[k])
    else merged == toMerge
  }

  /** Defaults never override a setting, at any depth: where both sides hold
      a dictionary under the same key, they are merged, not replaced. */
  lemma {:induction false} DeepMergeKeeps(toMerge: PyValue, default: PyValue)
    ensures Keeps(DeepMerge(toMerge, default), toMerge)
  {
    var r := DeepMerge(toMerge, default);
    if toMerge.PDict? && default.PDict? {
      forall k | k in toMerge.entries
        ensures Keeps(r.entries[k], toMerge.entries[k])
      {
        if k in default.entries {
          DeepMergeKeeps(toMerge.entries[k], default.entries[k]);
        } else {
          KeepsSelf(toMerge.entries[k]);
        }
      }
    } else {
      KeepsSelf(toMerge);
    }
  }

  lemma {:induction false} KeepsSelf(x: PyValue)
    ensures Keeps(x, x)
  {
    if x.PDict? {
      forall k | k in x.entries
        ensures Keeps(x.entries[k], x.entries[k])
      {
        KeepsSelf(x.entries[k]);
      }
    }
  }

  // ---------------------------------------------------------------- iface_channels

  /** A stripped channel line always has the second field `int(...)` is
      applied to: `line.split()[1]` cannot raise IndexError. */
  lemma ChannelLineHasNumberField(l: string)
    requires StartsWith(l, "Channel ") && Trimmed(l)
    ensures |Fields(l)| >= 2 && Fields(l)[0] == "Channel"
  {
    assert l == "Channel" + l[7..];
    FieldsAfterWord("Channel", l[7..]);
  }

  /** For one line of `iwlist <if> freq` output: when the stripped line starts
      with `"Channel "`, the text `int(...)` is applied to (its second
      whitespace-separated field); otherwise nothing. */
  function ChannelFieldOf(line: string): Option<string> {
    var l := Strip(line);
    if StartsWith(l, "Channel ") then
      ChannelLineHasNumberField(l);
      Some(Fields(l)[1])
    else None
  }

  /** What one line adds to the channel fields: its field, if it has one. */
  function Contribution(line: string): seq<string> {
    match ChannelFieldOf(line)
    case Some(f) => [f]
    case None => []
  }

  /** What `f` makes of the first `k` lines, one after the other. */
  function Gather(f: string -> seq<string>, lines: seq<string>, k: nat): seq<string>
    requires k <= |lines|
  {
    if k == 0 then [] else Gather(f, lines, k - 1) + f(lines[k - 1])
  }

  /** The channel fields of the first `k` lines, in input order. */
  function ChannelFields(lines: seq<string>, k: nat): seq<string>
    requires k <= |lines|
  {
    Gather(Contribution, lines, k)
  }

  /** `channels` holds, position by position, the integers written in `fields`. */
  ghost predicate ParsedChannels(fields: seq<string>, channels: seq<int>) {
    |channels| == |fields| && forall i :: 0 <= i < |fields| ==> Some(channels[i]) == ParseInt(fields[i])
  }

  /** Every field is an integer. */
  ghost predicate AllIntegers(fields: seq<string>) {
    forall i :: 0 <= i < |fields| ==> ParseInt(fields[i]).Some?
  }

  /** The parsing half of `iface_channels`: the command output is split into
      lines; each line that, once stripped, starts with `"Channel "`
      contributes `int` of its second field, in input order, and no other
      line contributes. A field that is not an integer makes `int` raise
      ValueError. */
  method IfaceChannels(output: string) returns (r: PyResult<seq<int>>)
    ensures var lines := Split(output, '\n');
            r.Success? <==> AllIntegers(ChannelFields(lines, |lines|))
    ensures var lines := Split(output, '\n');
            r.Success? ==> ParsedChannels(ChannelFields(lines, |lines|), r.value)
    ensures r.Failure? ==> r.error == ValueError
  {
    r := ParseChannelLines(Split(output, '\n'));
  }

  /** The loop of `iface_channels` over the lines of the output. */
  method ParseChannelLines(lines: seq<string>) returns (r: PyResult<seq<int>>)
    ensures r.Success? <==> AllIntegers(ChannelFields(lines, |lines|))
    ensures r.Success? ==> ParsedChannels(ChannelFields(lines, |lines|), r.value)
    ensures r.Failure? ==> r.error == ValueError
  {
    var channels: seq<int> := [];
    var k := 0;
    while k < |lines|
      invariant 0 <= k <= |lines|
      invariant ParsedChannels(ChannelFields(lines, k), channels)
    {
      var next := ParseLine(lines[k], ChannelFields(lines, k), channels);
      if next.Failure? {
        ContributionUnparsable(lines, k);
        return Failure(ValueError);
      }
      GatherStep(Contribution, lines, k);
      channels := next.value;
      k := k + 1;
    }
    ParsedAreIntegers(ChannelFields(lines, k), channels);
    return Success(channels);
  }

  /** Fields that parsed are integers. */
  lemma ParsedAreIntegers(fields: seq<string>, channels: seq<int>)
    requires ParsedChannels(fields, channels)
    ensures AllIntegers(fields)
  {
  }

  /** One loop step of `iface_channels`: a channel line appends `int` of its
      field, or raises ValueError; any other line leaves `channels` as it is. */
  method ParseLine(line: string, ghost fields: seq<string>, channels: seq<int>) returns (r: PyResult<seq<int>>)
    requires ParsedChannels(fields, channels)
    ensures r.Success? <==> AllIntegers(Contribution(line))
    ensures r.Success? ==> ParsedChannels(fields + Contribution(line), r.value)
    ensures r.Failure? ==> r.error == ValueError
  {
    var field := ChannelFieldOf(line);
    if field.None? {
      return Success(channels);
    }
    var n := ParseInt(field.value);
    if n.None? {
      return Failure(ValueError);
    }
    return Success(channels + [n.value]);
  }

  /** A line whose contribution is not an integer breaks `AllIntegers` for
      the whole output. */
  lemma ContributionUnparsable(lines: seq<string>, k: nat)
    requires k < |lines| && !AllIntegers(Contribution(lines[k]))
    ensures !AllIntegers(ChannelFields(lines, |lines|))
  {
    var i := GatherIndex(Contribution, lines, k, |lines|);
  }

  /** One more line adds what `f` makes of it. */
  lemma GatherStep(f: string -> seq<string>, lines: seq<string>, k: nat)
    requires k < |lines|
    ensures Gather(f, lines, k + 1) == Gather(f, lines, k) + f(lines[k])
  {
  }

  /** Where the single string `f` makes of line `k` lands in what it makes of
      the first `n` lines, `k < n`. */
  lemma {:induction false} GatherIndex(f: string -> seq<string>, lines: seq<string>, k: nat, n: nat) returns (i: nat)
    requires k < n <= |lines| && |f(lines[k])| == 1
    ensures i < |Gather(f, lines, n)| && Gather(f, lines, n)[i] == f(lines[k])[0]
  {
    if k == n - 1 {
      i := |Gather(f, lines, n - 1)|;
    } else {
      i := GatherIndex(f, lines, k, n - 1);
    }
  }
}
