/** OAuth scope strings: the space-separated lists of section 3.3 of RFC 6749. */
module Scopes {
  import opened Sequences
  import opened Text

  /** The scope tokens of a string: its non-empty pieces between spaces. */
  function Tokens(scope: string): seq<string> {
    Filter(Split(scope, ' '), (t: string) => t != "")
  }

  lemma TokensOfPiece(piece: string)
    requires ' ' !in piece
    ensures Tokens(piece) == if piece == "" then [] else [piece]
  {
    SplitFree(piece, ' ');
    assert [piece][1..] == [];
  }

  lemma TokensConcat(a: string, b: string)
    ensures Tokens(a + " " + b) == Tokens(a) + Tokens(b)
  {
    SplitConcat(a, b, ' ');
    FilterConcat(Split(a, ' '), Split(b, ' '), (t: string) => t != "");
  }

  method ParseScopes(scope: string) returns (result: seq<string>)
    ensures result == Tokens(scope)
  {
    hide Tokens;
    if scope == "" {
      TokensOfPiece("");
      return [];
    }
    result := [];
    var current := "";
    assert current + scope[0..] == scope;
    for i := 0 to |scope|
      invariant ' ' !in current
      invariant result + Tokens(current + scope[i..]) == Tokens(scope)
    {
      var rest := scope[i + 1..];
      assert current + scope[i..] == current + [scope[i]] + rest;
      if scope[i] == ' ' {
        TokensConcat(current, rest);
        TokensOfPiece(current);
        assert "" + rest == rest;
        if current != "" {
          result := result + [current];
          current := "";
        }
      } else {
        current := current + [scope[i]];
      }
    }
    TokensOfPiece(current);
    assert current + scope[|scope|..] == current;
    if current != "" {
      result := result + [current];
    }
  }

  method ContainsScope(scopes: seq<string>, target: string) returns (found: bool)
    ensures found <==> target in scopes
  {
    for i := 0 to |scopes|
      invariant target !in scopes[..i]
    {
      if scopes[i] == target {
        return true;
      }
    }
    return false;
  }

  /** The identity provider's version. */
  method JoinScopes(scopes: seq<string>) returns (result: string)
    ensures result == Join(scopes, ' ')
  {
    if |scopes| == 0 {
      return "";
    }
    result := scopes[0];
    for i := 1 to |scopes|
      invariant result == Join(scopes[..i], ' ')
    {
      JoinSnoc(scopes[..i], scopes[i], ' ');
      assert scopes[..i + 1] == scopes[..i] + [scopes[i]];
      result := result + " " + scopes[i];
    }
    assert scopes[..|scopes|] == scopes;
  }

  /** The relying party's version: the same string, so the two may be exchanged. */
  method JoinScopesRelyingParty(scopes: seq<string>) returns (result: string)
    ensures result == Join(scopes, ' ')
  {
    result := "";
    for i := 0 to |scopes|
      invariant result == Join(scopes[..i], ' ')
    {
      assert scopes[..i + 1] == scopes[..i] + [scopes[i]];
      if i > 0 {
        JoinSnoc(scopes[..i], scopes[i], ' ');
        result := result + " ";
      }
      result := result + scopes[i];
    }
    assert scopes[..|scopes|] == scopes;
  }

  ghost predicate AreTokens(ts: seq<string>) {
    forall t :: t in ts ==> t != "" && ' ' !in t
  }

  /** Parsing undoes joining exactly on the lists of non-empty tokens without spaces. */
  lemma ParseJoin(ts: seq<string>)
    ensures Tokens(Join(ts, ' ')) == ts <==> AreTokens(ts)
  {
    TokensAreTokens(Join(ts, ' '));
    if AreTokens(ts) && ts != [] {
      SplitJoin(ts, ' ');
      FilterAll(ts, (t: string) => t != "");
    } else if ts == [] {
      TokensOfPiece("");
    }
  }

  lemma TokensAreTokens(scope: string)
    ensures AreTokens(Tokens(scope))
  {
    SplitPiecesFree(scope, ' ');
  }

  /** Joining what was parsed normalises the spaces and keeps the tokens. */
  lemma ParseJoinParse(scope: string)
    ensures Tokens(Join(Tokens(scope), ' ')) == Tokens(scope)
  {
    TokensAreTokens(scope);
    ParseJoin(Tokens(scope));
  }
}

/** The comma-separated role column of the membership tables. */
module RoleColumn {
  import opened Text

  function ToColumn(roles: seq<string>): string {
    Join(roles, ',')
  }

  function FromColumn(column: string): seq<string> {
    if column != "" then Split(column, ',') else []
  }

  /** A stored role list comes back unchanged exactly if no name has a comma and it is not the list of one empty name. */
  lemma RolesRoundTrip(roles: seq<string>)
    ensures FromColumn(ToColumn(roles)) == roles <==> AllFree(roles, ',') && roles != [""]
  {
    SplitPiecesFree(ToColumn(roles), ',');
    if AllFree(roles, ',') && roles != [] {
      SplitJoin(roles, ',');
      if |roles| > 1 {
        assert Join(roles, ',') == roles[0] + "," + Join(roles[1..], ',');
      }
    }
  }

  /** Loading a column and storing it again never changes it. */
  lemma ColumnRoundTrip(column: string)
    ensures ToColumn(FromColumn(column)) == column
  {
    JoinSplit(column, ',');
  }
}

/** The messages of the invalidation channel. */
module InvalidationMessages {
  import opened Text

  /** The text before the first colon and the text after it, or the whole message. */
  ghost predicate ParsedAs(msg: string, parts: seq<string>) {
    if ':' in msg
    then |parts| == 2 && ':' !in parts[0] && msg == parts[0] + ":" + parts[1]
    else parts == [msg]
  }

  method ParseInvalidationMessage(msg: string) returns (parts: seq<string>)
    ensures ParsedAs(msg, parts)
  {
    for i := 0 to |msg|
      invariant ':' !in msg[..i]
    {
      if msg[i] == ':' {
        assert msg == msg[..i] + ":" + msg[i + 1..];
        return [msg[..i], msg[i + 1..]];
      }
    }
    assert msg[..|msg|] == msg;
    return [msg];
  }

  function Published(eventType: string, payload: string): string {
    eventType + ":" + payload
  }

  /** Whatever the parser returns for a published message is its type and payload, exactly if the type has no colon. */
  lemma PublishParse(eventType: string, payload: string, parts: seq<string>)
    requires ParsedAs(Published(eventType, payload), parts)
    ensures parts == [eventType, payload] <==> ':' !in eventType
  {
    assert Published(eventType, payload)[|eventType|] == ':';
    if ':' !in eventType {
      SplitCons(eventType, payload, ':');
      SplitCons(parts[0], parts[1], ':');
      assert [eventType] + Split(payload, ':') == [parts[0]] + Split(parts[1], ':');
      assert ([eventType] + Split(payload, ':'))[1..] == Split(payload, ':');
      assert ([parts[0]] + Split(parts[1], ':'))[1..] == Split(parts[1], ':');
      JoinSplit(payload, ':');
      JoinSplit(parts[1], ':');
    }
  }
}
