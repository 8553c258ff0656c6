/**
 The pagination bag: a stack of page states that survives between calls as a token.
 */
module Bags {
  import opened Json

  datatype PageState = PageState(token: string, resourceType: string, resourceId: string)

  /** What a page token decodes to. */
  datatype Token = Token(states: seq<PageState>, current: Option<PageState>)

  const BLANK := Token([], None)

  function Marshal(bag: Token): Token {
    if bag.current.None? then BLANK else bag
  }

  function Pushed(bag: Token, state: PageState): Token {
    match bag.current
    case None => bag.(current := Some(state))
    case Some(top) => Token(bag.states + [top], Some(state))
  }

  function Popped(bag: Token): Token {
    if bag.current.None? then bag
    else if bag.states == [] then Token([], None)
    else Token(bag.states[..|bag.states| - 1], Some(bag.states[|bag.states| - 1]))
  }

  /** The token to return: the top state moves to its next page, or goes when there is none. */
  function Advance(bag: Token, pageToken: string): Token {
    match bag.current
    case None => bag.(current := Some(PageState(pageToken, "", "")))
    case Some(top) =>
      Marshal(if pageToken == "" then Popped(bag) else Pushed(Popped(bag), top.(token := pageToken)))
  }

  function PageToken(bag: Token): string {
    if bag.current.None? then "" else bag.current.value.token
  }

  function ResourceType(bag: Token): string {
    if bag.current.None? then "" else bag.current.value.resourceType
  }

  class Bag {
    var states: seq<PageState>
    var current: Option<PageState>

    function State(): Token
      reads this
    {
      Token(states, current)
    }

    constructor ()
      ensures State() == BLANK
    {
      states, current := [], None;
    }

    method Unmarshal(token: Token)
      modifies this
      ensures State() == token
    {
      states, current := token.states, token.current;
    }

    method Push(state: PageState)
      modifies this
      ensures State() == Pushed(old(State()), state)
    {
      if current.Some? {
        states := states + [current.value];
      }
      current := Some(state);
    }

    method Pop() returns (top: Option<PageState>)
      modifies this
      ensures top == old(current) && State() == Popped(old(State()))
    {
      top := current;
      if current.Some? {
        if |states| > 0 {
          current := Some(states[|states| - 1]);
          states := states[..|states| - 1];
        } else {
          current := None;
        }
      }
    }

    method NextToken(pageToken: string) returns (token: Token)
      modifies this
      ensures token == Advance(old(State()), pageToken)
    {
      if current.None? {
        current := Some(PageState(pageToken, "", ""));
        return Marshal(State());
      }
      var top := Pop();
      if pageToken != "" {
        Push(top.value.(token := pageToken));
      }
      return Marshal(State());
    }
  }

  /** The bag as a stack, top last. */
  function Stack(bag: Token): seq<PageState> {
    bag.states + if bag.current.None? then [] else [bag.current.value]
  }

  /** Pushing and popping work at the top; a bag in which nothing is current starts one with the token. */
  lemma StackReads(bag: Token, state: PageState)
    requires bag.current.None? ==> bag.states == []
    ensures Stack(Pushed(bag, state)) == Stack(bag) + [state]
    ensures Popped(Pushed(bag, state)) == bag
    ensures Stack(bag) == [] ==> Stack(Advance(bag, state.token)) == [PageState(state.token, "", "")]
  {
    match bag.current {
      case None =>
      case Some(top) =>
        assert (bag.states + [top])[..|bag.states|] == bag.states;
    }
  }

  /** The token is blank exactly when the only state there was has no next page. */
  lemma BlankExactly(bag: Token, pageToken: string)
    ensures Advance(bag, pageToken) == BLANK <==> bag.current.Some? && bag.states == [] && pageToken == ""
  {
  }

  /** Advancing an occupied bag touches the top state only. */
  lemma AdvanceTouchesTopOnly(bag: Token, pageToken: string)
    requires bag.current.Some?
    ensures var stack := Stack(bag);
            var below, top := stack[..|stack| - 1], stack[|stack| - 1];
            Stack(Advance(bag, pageToken)) == if pageToken == "" then below else below + [top.(token := pageToken)]
  {
    var stack := Stack(bag);
    assert stack[..|stack| - 1] == bag.states;
    if bag.states != [] {
      assert bag.states == bag.states[..|bag.states| - 1] + [bag.states[|bag.states| - 1]];
    }
  }

  lemma AdvanceOfTwo(below: PageState, top: PageState, pageToken: string)
    ensures Advance(Token([below], Some(top)), pageToken) ==
            if pageToken == "" then Token([], Some(below)) else Token([below], Some(top.(token := pageToken)))
  {
    assert [below][..0] == [];
  }
}
