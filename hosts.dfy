/** The hostname table that `read_hosts_to_tree` loads from the text of the
    hosts file: one `<address> <hostname> [ignored…]` mapping per line. */
module Hosts {
  import opened Wrappers
  import opened Text
  import opened Ip

  /** What one line contributes: nothing, a mapping for an IPv4 address, a
      mapping for an IPv6 address, or an address the parser rejects (where
      the program panics in `unwrap`). */
  datatype LineResult =
    | Skip
    | Bind(addr: Ipv4, name: string)
    | Ipv6Entry(text: string, name: string)
    | BadAddress(token: string)

  /** `str::starts_with` for a one-character pattern. */
  predicate StartsWith(s: string, c: char) {
    |s| > 0 && s[0] == c
  }

  /** One line: fewer than two tokens or a first token starting with '#' are
      skipped; otherwise the first token is the address, IPv4 or IPv6, and
      the second the name. */
  function ReadLine(line: string): LineResult {
    var tokens := Tokens(line);
    if |tokens| < 2 then Skip
    else if StartsWith(tokens[0], '#') then Skip
    else match Parse(tokens[0])
      case Some(addr) => Bind(addr, tokens[1])
      case None =>
        if IsIpv6Text(tokens[0]) then Ipv6Entry(tokens[0], tokens[1])
        else BadAddress(tokens[0])
  }

  /** The result of every line, in order. */
  function ReadLines(ls: seq<string>): seq<LineResult> {
    seq(|ls|, i requires 0 <= i < |ls| => ReadLine(ls[i]))
  }

  /** Loading one more line: an earlier failure stands, a skipped line
      changes nothing, an IPv4 line inserts or overwrites its address. An
      IPv6 line goes under an IPv6 key, which no IPv4 gateway looks up, so
      the table of IPv4 addresses stays as it was. */
  function Step(acc: Result<map<Ipv4, string>, string>, r: LineResult): Result<map<Ipv4, string>, string> {
    match acc
    case Err(t) => Err(t)
    case Ok(prev) =>
      match r
      case Skip => Ok(prev)
      case Ipv6Entry(_, _) => Ok(prev)
      case Bind(addr, name) => Ok(prev[addr := name])
      case BadAddress(t) => Err(t)
  }

  /** The table after applying the results of the lines in order to m, or
      the first rejected address. */
  function Apply(m: map<Ipv4, string>, rs: seq<LineResult>): Result<map<Ipv4, string>, string>
    decreases |rs|
  {
    if rs == [] then Ok(m) else Step(Apply(m, rs[..|rs| - 1]), rs[|rs| - 1])
  }

  /** The table after reading the lines in order into m. */
  function LoadLines(m: map<Ipv4, string>, ls: seq<string>): Result<map<Ipv4, string>, string> {
    Apply(m, ReadLines(ls))
  }

  /** The addresses that the kept lines bind. */
  function BoundAddresses(rs: seq<LineResult>): set<Ipv4> {
    set i | 0 <= i < |rs| && rs[i].Bind? :: rs[i].addr
  }

  // ---------------------------------------------------------------------------
  // Single lines

  /** Empty and whitespace-only lines add nothing. */
  lemma BlankLineSkipped(line: string)
    requires AllWhitespace(line)
    ensures ReadLine(line) == Skip
  {
    TokensOfBlank(line);
  }

  /** A line with a single token adds nothing, whatever the token is. */
  lemma SingleTokenLineSkipped(lead: string, word: string, trail: string)
    requires AllWhitespace(lead) && AllWhitespace(trail)
    requires word != [] && NoWhitespace(word)
    ensures ReadLine(lead + word + trail) == Skip
  {
    assert lead + word + trail == lead + (word + trail);
    TokensSkipLeading(lead, word + trail);
    TokensSkipTrailing(word, trail);
    TokensOfWord(word);
  }

  /** A line whose first non-blank character is '#' adds nothing. */
  lemma CommentLineSkipped(lead: string, rest: string)
    requires AllWhitespace(lead)
    ensures ReadLine(lead + "#" + rest) == Skip
  {
    var s := "#" + rest;
    assert lead + "#" + rest == lead + s;
    TokensSkipLeading(lead, s);
    assert !IsWhitespace(s[0]);
    assert Tokens(s)[0] == Word(s);
  }

  lemma TokensOfNameThenExtra(name: string, extra: string)
    requires name != [] && NoWhitespace(name)
    requires extra == [] || IsWhitespace(extra[0])
    ensures |Tokens(name + extra)| >= 1 && Tokens(name + extra)[0] == name
  {
    if extra == [] {
      assert name + extra == name;
      TokensOfWord(name);
    } else {
      assert name + extra == name + [extra[0]] + extra[1..];
      TokensOfWordThenGap(name, [extra[0]], extra[1..]);
    }
  }

  lemma EntryRegroup(lead: string, word: string, gap: string, name: string, extra: string)
    ensures lead + word + gap + name + extra == lead + (word + gap + (name + extra))
  {
  }

  lemma TokensOfEntry(lead: string, word: string, gap: string, name: string, extra: string)
    requires AllWhitespace(lead) && gap != [] && AllWhitespace(gap)
    requires word != [] && NoWhitespace(word)
    requires name != [] && NoWhitespace(name)
    requires extra == [] || IsWhitespace(extra[0])
    ensures var ts := Tokens(lead + word + gap + name + extra);
      |ts| >= 2 && ts[0] == word && ts[1] == name
  {
    var rest := name + extra;
    var body := word + gap + rest;
    EntryRegroup(lead, word, gap, name, extra);
    TokensSkipLeading(lead, body);
    TokensOfWordThenGap(word, gap, rest);
    TokensOfNameThenExtra(name, extra);
  }

  /** A line holding an address, a gap, a name and anything after a further
      gap binds that address to that name. */
  lemma EntryLineBinds(lead: string, addr: Ipv4, gap: string, name: string, extra: string)
    requires AllWhitespace(lead) && gap != [] && AllWhitespace(gap)
    requires name != [] && NoWhitespace(name)
    requires extra == [] || IsWhitespace(extra[0])
    ensures ReadLine(lead + Format(addr) + gap + name + extra) == Bind(addr, name)
  {
    FormatChars(addr);
    TokensOfEntry(lead, Format(addr), gap, name, extra);
    ParseOfFormat(addr);
  }

  /** A line holding an IPv6 address, a gap, a name and anything after a
      further gap is an IPv6 entry for that name. */
  lemma Ipv6LineKept(lead: string, word: string, gap: string, name: string, extra: string)
    requires AllWhitespace(lead) && gap != [] && AllWhitespace(gap)
    requires IsIpv6Text(word) && NoWhitespace(word)
    requires name != [] && NoWhitespace(name)
    requires extra == [] || IsWhitespace(extra[0])
    ensures ReadLine(lead + word + gap + name + extra) == Ipv6Entry(word, name)
  {
    Ipv6Start(word);
    Ipv6IsNotIpv4(word);
    TokensOfEntry(lead, word, gap, name, extra);
  }

  /** A line whose first token is not a comment and neither an IPv4 nor an
      IPv6 address stops the load with that token, however the rest of the
      line looks. */
  lemma MalformedAddressRejected(lead: string, word: string, gap: string, name: string, extra: string)
    requires AllWhitespace(lead) && gap != [] && AllWhitespace(gap)
    requires word != [] && NoWhitespace(word) && word[0] != '#'
    requires Parse(word).None? && !IsIpv6Text(word)
    requires name != [] && NoWhitespace(name)
    requires extra == [] || IsWhitespace(extra[0])
    ensures ReadLine(lead + word + gap + name + extra) == BadAddress(word)
  {
    TokensOfEntry(lead, word, gap, name, extra);
  }

  /** Conversely, a line binds an address only when its first token is that
      address's printed form and its second token is the name. */
  lemma BindReadsFirstTwoTokens(line: string)
    requires ReadLine(line).Bind?
    ensures |Tokens(line)| >= 2
    ensures Tokens(line)[0] == Format(ReadLine(line).addr)
    ensures Tokens(line)[1] == ReadLine(line).name
  {
    FormatOfParse(Tokens(line)[0]);
  }

  // ---------------------------------------------------------------------------
  // Whole files

  /** Once a prefix of the lines has failed, the rest changes nothing. */
  lemma {:induction false} LoadErrorPersists(m: map<Ipv4, string>, rs: seq<LineResult>, k: nat)
    requires k <= |rs| && Apply(m, rs[..k]).Err?
    ensures Apply(m, rs) == Apply(m, rs[..k])
    decreases |rs| - k
  {
    if k < |rs| {
      assert rs[..k + 1][..k] == rs[..k];
      LoadErrorPersists(m, rs, k + 1);
    } else {
      assert rs[..k] == rs;
    }
  }

  /** Without a rejected address, loading succeeds. */
  lemma {:induction false} LoadSucceeds(m: map<Ipv4, string>, rs: seq<LineResult>)
    requires forall i | 0 <= i < |rs| :: !rs[i].BadAddress?
    ensures Apply(m, rs).Ok?
    decreases |rs|
  {
    if rs != [] {
      LoadSucceeds(m, rs[..|rs| - 1]);
    }
  }

  /** Loading fails with the token of the first line whose address is
      rejected. */
  lemma {:induction false} LoadFailsAtFirstBadLine(m: map<Ipv4, string>, rs: seq<LineResult>, i: nat)
    requires i < |rs| && rs[i].BadAddress?
    requires forall j | 0 <= j < i :: !rs[j].BadAddress?
    ensures Apply(m, rs) == Err(rs[i].token)
    decreases |rs|
  {
    var init := rs[..|rs| - 1];
    if i == |rs| - 1 {
      LoadSucceeds(m, init);
    } else {
      LoadFailsAtFirstBadLine(m, init, i);
    }
  }

  /** Lines that are skipped, and IPv6 entries, change nothing in the table
      of IPv4 addresses, wherever they stand. */
  lemma {:induction false} SkippedLineIgnored(m: map<Ipv4, string>, before: seq<LineResult>, r: LineResult, after: seq<LineResult>)
    requires r.Skip? || r.Ipv6Entry?
    ensures Apply(m, before + [r] + after) == Apply(m, before + after)
    decreases |after|
  {
    var with, without := before + [r] + after, before + after;
    if after == [] {
      assert with[..|with| - 1] == before && without == before;
    } else {
      var init := after[..|after| - 1];
      assert with[..|with| - 1] == before + [r] + init;
      assert without[..|without| - 1] == before + init;
      SkippedLineIgnored(m, before, r, init);
    }
  }

  /** Loading only inserts: the key set grows by exactly the bound addresses. */
  lemma {:induction false} LoadKeys(m: map<Ipv4, string>, rs: seq<LineResult>)
    requires Apply(m, rs).Ok?
    ensures Apply(m, rs).value.Keys == m.Keys + BoundAddresses(rs)
    decreases |rs|
  {
    if rs != [] {
      var init := rs[..|rs| - 1];
      LoadKeys(m, init);
      assert BoundAddresses(rs) == BoundAddresses(init) + BoundAddresses([rs[|rs| - 1]]) by {
        forall k | k in BoundAddresses(rs)
          ensures k in BoundAddresses(init) + BoundAddresses([rs[|rs| - 1]])
        {
          var i :| 0 <= i < |rs| && rs[i].Bind? && rs[i].addr == k;
          if i < |rs| - 1 {
            assert init[i] == rs[i];
          } else {
            assert [rs[|rs| - 1]][0] == rs[i];
          }
        }
        forall k | k in BoundAddresses(init)
          ensures k in BoundAddresses(rs)
        {
          var i :| 0 <= i < |init| && init[i].Bind? && init[i].addr == k;
          assert rs[i] == init[i];
        }
        if rs[|rs| - 1].Bind? {
          assert rs[|rs| - 1].addr in BoundAddresses(rs);
        }
      }
    }
  }

  /** Entries whose address no kept line names are left as they were. */
  lemma {:induction false} LoadKeepsOthers(m: map<Ipv4, string>, rs: seq<LineResult>, k: Ipv4)
    requires Apply(m, rs).Ok?
    requires k in m && k !in BoundAddresses(rs)
    ensures k in Apply(m, rs).value && Apply(m, rs).value[k] == m[k]
    decreases |rs|
  {
    if rs != [] {
      var init := rs[..|rs| - 1];
      assert k !in BoundAddresses(init);
      LoadKeepsOthers(m, init, k);
      if rs[|rs| - 1].Bind? {
        assert rs[|rs| - 1].addr in BoundAddresses(rs);
      }
    }
  }

  /** An address maps to the name on the last kept line that names it. */
  lemma {:induction false} LoadLastWins(m: map<Ipv4, string>, rs: seq<LineResult>, i: nat)
    requires Apply(m, rs).Ok?
    requires i < |rs| && rs[i].Bind?
    requires forall j | i < j < |rs| :: !(rs[j].Bind? && rs[j].addr == rs[i].addr)
    ensures rs[i].addr in Apply(m, rs).value
    ensures Apply(m, rs).value[rs[i].addr] == rs[i].name
    decreases |rs|
  {
    var init := rs[..|rs| - 1];
    if i < |rs| - 1 {
      assert init[i] == rs[i];
      LoadLastWins(m, init, i);
    }
  }

  /** The name a line binds is a single non-empty token. */
  lemma BoundNameIsToken(line: string)
    requires ReadLine(line).Bind?
    ensures ReadLine(line).name != [] && NoWhitespace(ReadLine(line).name)
  {
    TokensAreWords(line);
  }

  /** Every name the loader stores is a single non-empty token. */
  lemma {:induction false} LoadedNamesAreTokens(m: map<Ipv4, string>, ls: seq<string>)
    requires forall k | k in m :: m[k] != [] && NoWhitespace(m[k])
    requires LoadLines(m, ls).Ok?
    ensures forall k | k in LoadLines(m, ls).value ::
      LoadLines(m, ls).value[k] != [] && NoWhitespace(LoadLines(m, ls).value[k])
    decreases |ls|
  {
    if ls != [] {
      var init, last := ls[..|ls| - 1], ls[|ls| - 1];
      var rs := ReadLines(ls);
      assert rs[..|ls| - 1] == ReadLines(init) && rs[|ls| - 1] == ReadLine(last);
      assert LoadLines(m, ls) == Step(LoadLines(m, init), ReadLine(last));
      LoadedNamesAreTokens(m, init);
      if ReadLine(last).Bind? {
        BoundNameIsToken(last);
      }
    }
  }

  /** The ordered map that `read_hosts_to_tree` fills. */
  class NameTree {
    var entries: map<Ipv4, string>

    constructor ()
      ensures entries == map[]
    {
      entries := map[];
    }

    /** Reads the text line by line into the table. On a rejected address
        the program panics; here the token is returned and the table holds
        the lines before the rejected one. */
    method LoadHosts(text: string) returns (outcome: Result<(), string>)
      modifies this
      ensures LoadLines(old(entries), Lines(text)).Err? ==>
        outcome == Err(LoadLines(old(entries), Lines(text)).error)
      ensures outcome.Err? ==> exists i | 0 <= i < |Lines(text)| ::
        && ReadLine(Lines(text)[i]) == BadAddress(outcome.error)
        && Apply(old(entries), ReadLines(Lines(text))[..i]) == Ok(entries)
      ensures LoadLines(old(entries), Lines(text)).Ok? ==>
        outcome.Ok? && entries == LoadLines(old(entries), Lines(text)).value
    {
      var lines := Lines(text);
      ghost var results := ReadLines(lines);
      for i := 0 to |lines|
        invariant Apply(old(entries), results[..i]) == Ok(entries)
      {
        assert results[..i + 1][..i] == results[..i] && results[i] == ReadLine(lines[i]);
        match ReadLine(lines[i]) {
          case Skip =>
          case Ipv6Entry(_, _) =>
          case Bind(addr, name) =>
            entries := entries[addr := name];
          case BadAddress(token) =>
            LoadErrorPersists(old(entries), results, i + 1);
            return Err(token);
        }
      }
      assert results[..|lines|] == results;
      return Ok(());
    }
  }
}
