/**
 * The text half of `Xrandr::get_active_monitors`: the output names read from
 * what `xrandr --listactivemonitors` prints.
 */
module ActiveOutputs {
  import opened Wrappers
  import opened Strings

  /** What one line contributes: its last whitespace-separated word, if it has one. */
  function LineName(line: string): (n: Option<string>)
    ensures n.None? <==> Words(line) == []
    ensures n.Some? ==> n.value != [] && NoWhitespace(n.value)
  {
    var words := Words(line);
    if words == [] then None else Some(words[|words| - 1])
  }

  /** The names the lines contribute, in line order. */
  function Names(lines: seq<string>): seq<string> {
    FilterMap(lines, LineName)
  }

  /** The names in `listing`, or `None` when there are none. */
  function ActiveMonitors(listing: string): (r: Option<seq<string>>)
    ensures r.Some? ==> r.value != [] && |r.value| <= |Split(listing, '\n')|
  {
    var names := Names(Split(listing, '\n'));
    if names == [] then None else Some(names)
  }

  /** The loop of `get_active_monitors`, pushing each line's last word. */
  method GetActiveMonitors(listing: string) returns (r: Option<seq<string>>)
    ensures r == ActiveMonitors(listing)
  {
    var lines := Split(listing, '\n');
    var active: seq<string> := [];
    var i := 0;
    while i < |lines|
      invariant 0 <= i <= |lines|
      invariant active + Names(lines[i..]) == Names(lines)
    {
      NamesFrom(lines, i);
      var words := Words(lines[i]);
      if words != [] {
        active := active + [words[|words| - 1]];
      }
      i := i + 1;
    }
    assert lines[i..] == [] && active + [] == active;
    if active != [] {
      r := Some(active);
    } else {
      r := None;
    }
  }

  /** The names from line `i` on: line `i`'s own name, then the rest. */
  lemma NamesFrom(lines: seq<string>, i: nat)
    requires i < |lines|
    ensures Names(lines[i..]) ==
      (if LineName(lines[i]).Some? then [LineName(lines[i]).value] else []) + Names(lines[i + 1..])
  {
    assert lines[i..][0] == lines[i] && lines[i..][1..] == lines[i + 1..];
  }

  /**
   * A line contributes a name exactly when it is not blank, and the name is
   * its last word: a non-empty run of non-whitespace followed only by
   * whitespace and preceded by whitespace or by the start of the line.
   */
  lemma LineNameIsLastWord(line: string) returns (pre: string, post: string)
    ensures LineName(line).None? <==> AllWhitespace(line)
    ensures LineName(line).Some? ==>
      var name := LineName(line).value;
      name != [] && NoWhitespace(name) &&
      line == pre + name + post && AllWhitespace(post) &&
      (pre == [] || IsWhitespace(pre[|pre| - 1]))
  {
    pre, post := [], [];
    NoWordsIffBlank(line);
    if Words(line) != [] {
      pre, post := LastWordSplit(line);
    }
  }

  /**
   * Lines contribute independently and in order: the names of a listing are
   * the names of the lines before a line, then that line's own name (if
   * any), then the names of the lines after it.
   */
  lemma NamesLineByLine(before: seq<string>, line: string, after: seq<string>)
    ensures Names(before + [line] + after) ==
      Names(before) + (match LineName(line) case Some(n) => [n] case None => []) + Names(after)
  {
    FilterMapAppend(before, [line], LineName);
    FilterMapAppend(before + [line], after, LineName);
    assert [line][1..] == [];
  }

  /** No name is collected exactly when every line is blank. */
  lemma {:induction false} NamesEmptyIffBlank(lines: seq<string>)
    ensures Names(lines) == [] <==> forall i :: 0 <= i < |lines| ==> AllWhitespace(lines[i])
  {
    if lines != [] {
      NamesEmptyIffBlank(lines[1..]);
      var _, _ := LineNameIsLastWord(lines[0]);
      assert forall i :: 1 <= i < |lines| ==> lines[i] == lines[1..][i - 1];
    }
  }

  /** The result is `None` exactly when every line of the listing is blank. */
  lemma ActiveMonitorsNoneIff(listing: string)
    ensures ActiveMonitors(listing).None? <==>
      forall line :: line in Split(listing, '\n') ==> AllWhitespace(line)
  {
    NamesEmptyIffBlank(Split(listing, '\n'));
  }

  /**
   * xrandr starts its listing with a `Monitors: <count>` line. Its last word
   * is the count, so the count is collected ahead of the output names as if
   * it were a name itself.
   */
  lemma CountLineIsCollected(count: string, rest: string)
    requires count != [] && NoWhitespace(count)
    ensures ActiveMonitors("Monitors: " + count + "\n" + rest) ==
      Some([count] + Names(Split(rest, '\n')))
  {
    var header := "Monitors: " + count;
    assert IsWhitespace('\n');
    assert '\n' !in header;
    SplitAtSeparator(header, '\n', rest);
    WordsOfCountLine(count);
    assert LineName(header) == Some(count);
    NamesLineByLine([], header, Split(rest, '\n'));
    assert [] + [header] + Split(rest, '\n') == [header] + Split(rest, '\n');
  }

  lemma WordsOfCountLine(count: string)
    requires count != [] && NoWhitespace(count)
    ensures Words("Monitors: " + count) == ["Monitors:", count]
  {
    var ws := ["Monitors:", count];
    assert ws[1..] == [count];
    assert Join(ws, ' ') == "Monitors: " + count;
    WordsOfJoin(ws);
  }
}
