/**
 * The server's credential store (WpfServer/AuthenticationManager.cs): a
 * username -> password dictionary filled once from the lines of users.txt, and
 * an exact, case-sensitive lookup.
 */
module Credentials {
  import opened Wrappers
  import opened Text

  /** What reading users.txt gave: no such file, a read that threw, or its lines. */
  datatype UsersFile = Missing | Unreadable | Lines(lines: seq<string>)

  /** A stored username or password: non-empty, no white space at either end, no ':'. */
  predicate WellFormedField(s: string) {
    s != [] && IsTrimmed(s) && ':' !in s
  }

  predicate WellFormedStore(users: map<string, string>) {
    forall u | u in users :: WellFormedField(u) && WellFormedField(users[u])
  }

  /** One line of users.txt: split on every ':', keep it only when there are exactly
      two parts whose trimmed forms are both non-empty. */
  function ParseLine(line: string): (r: Option<(string, string)>)
    ensures Count(line, ':') != 1 ==> r == None
    ensures r.Some? ==> WellFormedField(r.value.0) && WellFormedField(r.value.1)
  {
    var parts := Split(line, ':');
    if |parts| == 2 then
      var username := Trim(parts[0]);
      var password := Trim(parts[1]);
      if username != [] && password != [] then Some((username, password)) else None
    else None
  }

  /** One step of the loading loop: a parsed line is added unless its username is
      already a key. */
  function AddLine(users: map<string, string>, line: string): (r: map<string, string>)
    ensures forall u | u in users :: u in r && r[u] == users[u]
    ensures forall u | u in r && u !in users :: ParseLine(line) == Some((u, r[u]))
    ensures |r| <= |users| + 1
  {
    match ParseLine(line)
    case Some((username, password)) =>
      if username in users then users else users[username := password]
    case None => users
  }

  /** AddLine spelled out as the loading loop computes it. */
  lemma AddLineSteps(users: map<string, string>, line: string)
    ensures var parts := Split(line, ':');
      AddLine(users, line) ==
        if |parts| == 2 && Trim(parts[0]) != [] && Trim(parts[1]) != [] && Trim(parts[0]) !in users
        then users[Trim(parts[0]) := Trim(parts[1])]
        else users
  {
  }

  /** The dictionary after the loading loop has run over `lines`, in order. */
  function LoadLines(users: map<string, string>, lines: seq<string>): (r: map<string, string>)
    ensures users.Keys <= r.Keys
    ensures |r| <= |users| + |lines|
  {
    if lines == [] then users
    else AddLine(LoadLines(users, lines[..|lines| - 1]), lines[|lines| - 1])
  }

  /** The loading loop after one more line. */
  lemma LoadLinesPrefixStep(users: map<string, string>, lines: seq<string>, i: nat)
    requires i < |lines|
    ensures LoadLines(users, lines[..i + 1]) == AddLine(LoadLines(users, lines[..i]), lines[i])
  {
    assert lines[..i + 1][..i] == lines[..i];
  }

  /** Reference definition: the password of the first line that parses with this username. */
  function FirstEntry(lines: seq<string>, username: string): Option<string> {
    if lines == [] then None
    else match ParseLine(lines[0])
      case Some((u, p)) => if u == username then Some(p) else FirstEntry(lines[1..], username)
      case None => FirstEntry(lines[1..], username)
  }

  /** The exact-match check of AuthenticateUser. */
  predicate Accepts(users: map<string, string>, username: string, password: string) {
    username in users && users[username] == password
  }

  /** For a line with exactly one ':', both sides are trimmed, and the line is dropped
      exactly when one side is blank. */
  lemma {:induction false} ParseLineSingleColon(a: string, b: string)
    requires ':' !in a && ':' !in b
    ensures ParseLine(a + ":" + b) ==
      if IsBlank(a) || IsBlank(b) then None else Some((Trim(a), Trim(b)))
  {
    SplitAtFirst(a, b, ':');
    SplitNoSep(b, ':');
  }

  /** First occurrence wins: a username already stored keeps its password whatever
      lines follow. */
  lemma {:induction false} LoadKeepsStored(users: map<string, string>, lines: seq<string>, u: string)
    requires u in users
    ensures u in LoadLines(users, lines) && LoadLines(users, lines)[u] == users[u]
  {
    if lines != [] {
      LoadKeepsStored(users, lines[..|lines| - 1], u);
    }
  }

  /** Loading only ever stores well-formed usernames and passwords. */
  lemma {:induction false} LoadWellFormed(users: map<string, string>, lines: seq<string>)
    requires WellFormedStore(users)
    ensures WellFormedStore(LoadLines(users, lines))
  {
    if lines != [] {
      LoadWellFormed(users, lines[..|lines| - 1]);
    }
  }

  /** The reference search over lines with one more line at the end. */
  lemma {:induction false} FirstEntrySnoc(lines: seq<string>, line: string, u: string)
    ensures FirstEntry(lines + [line], u) ==
      if FirstEntry(lines, u).Some? then FirstEntry(lines, u)
      else if ParseLine(line).Some? && ParseLine(line).value.0 == u then Some(ParseLine(line).value.1)
      else None
  {
    if lines == [] {
      assert [] + [line] == [line];
      assert [line][1..] == [];
    } else {
      assert (lines + [line])[1..] == lines[1..] + [line];
      FirstEntrySnoc(lines[1..], line, u);
    }
  }

  /** The password stored for `u`, if any. */
  function Lookup(users: map<string, string>, u: string): Option<string> {
    if u in users then Some(users[u]) else None
  }

  /** One loading step stores `u` only from a line naming it, and only when `u`
      was not stored yet. */
  lemma AddLineAt(users: map<string, string>, line: string, u: string)
    ensures Lookup(AddLine(users, line), u) ==
      if Lookup(users, u).Some? then Lookup(users, u)
      else if ParseLine(line).Some? && ParseLine(line).value.0 == u then Some(ParseLine(line).value.1)
      else None
  {
  }

  lemma LoadLinesSnoc(users: map<string, string>, lines: seq<string>, line: string)
    ensures LoadLines(users, lines + [line]) == AddLine(LoadLines(users, lines), line)
  {
    var all := lines + [line];
    assert all[..|all| - 1] == lines && all[|all| - 1] == line;
  }

  /** The correspondence between loading and the reference search survives one
      more line. */
  lemma LoadIsFirstEntryStep(lines: seq<string>, u: string)
    requires lines != []
    requires Lookup(LoadLines(map[], lines[..|lines| - 1]), u) == FirstEntry(lines[..|lines| - 1], u)
    ensures Lookup(LoadLines(map[], lines), u) == FirstEntry(lines, u)
  {
    var init, last := lines[..|lines| - 1], lines[|lines| - 1];
    FrontLast(lines);
    FirstEntrySnoc(init, last, u);
    AddLineAt(LoadLines(map[], init), last, u);
  }

  /** Loading from an empty store keeps, for every username, exactly the password of
      the first line that names it. */
  lemma {:induction false} LoadIsFirstEntry(lines: seq<string>, u: string)
    ensures Lookup(LoadLines(map[], lines), u) == FirstEntry(lines, u)
  {
    if lines != [] {
      LoadIsFirstEntry(lines[..|lines| - 1], u);
      LoadIsFirstEntryStep(lines, u);
    }
  }

  /** AuthenticateUser against the loaded store accepts (u, p) exactly when p is the
      password on the first line for u. */
  lemma AcceptsFirstPair(lines: seq<string>, u: string, p: string)
    ensures Accepts(LoadLines(map[], lines), u, p) <==> FirstEntry(lines, u) == Some(p)
  {
    LoadIsFirstEntry(lines, u);
  }

  /** Stored usernames never contain ':', so a name holding one is always rejected. */
  lemma ColonNameRejected(lines: seq<string>, u: string, p: string)
    requires ':' in u
    ensures !Accepts(LoadLines(map[], lines), u, p)
  {
    LoadWellFormed(map[], lines);
  }

  /** The credential store of the server. */
  class AuthenticationManager {
    var users: map<string, string>

    /** Creates the store and loads it from users.txt. */
    constructor (file: UsersFile)
      ensures users == if file.Lines? then LoadLines(map[], file.lines) else map[]
    {
      users := map[];
      new;
      LoadUsersFromFile(file);
    }

    /** Adds every well-formed line whose username is new. A missing or unreadable
        file adds nothing and raises nothing. */
    method LoadUsersFromFile(file: UsersFile)
      modifies this
      ensures users == if file.Lines? then LoadLines(old(users), file.lines) else old(users)
    {
      if file.Lines? {
        var lines := file.lines;
        var i := 0;
        while i < |lines|
          invariant 0 <= i <= |lines|
          invariant users == LoadLines(old(users), lines[..i])
        {
          var line := lines[i];
          ghost var before := users;
          var parts := Split(line, ':');
          if |parts| == 2 {
            var username := Trim(parts[0]);
            var password := Trim(parts[1]);
            if username != [] && password != [] {
              if username !in users {
                users := users[username := password];
              }
            }
          }
          AddLineSteps(before, line);
          LoadLinesPrefixStep(old(users), lines, i);
          i := i + 1;
        }
        assert lines[..|lines|] == lines;
      }
    }

    /** True iff `username` is a key (exact, case-sensitive) and its password is
        exactly `password`; the store is only read. */
    method AuthenticateUser(username: string, password: string) returns (ok: bool)
      ensures ok <==> Accepts(users, username, password)
    {
      if username in users {
        ok := users[username] == password;
      } else {
        ok := false;
      }
    }
  }
}
