/** The `Book` view component: the renderer that slices a page's content
    around its tokens, and the page cursor moved by the Previous and Next
    buttons. */
module BookView {
  import opened Schema

  // ---------------------------------------------------------------------
  // JavaScript's String.prototype.substring
  // ---------------------------------------------------------------------

  /** An index clamped to `[0, n]`, as `substring` treats its arguments. */
  function Clamp(x: int, n: nat): (r: nat)
    ensures r <= n
    ensures 0 <= x <= n ==> r == x
    ensures x < 0 ==> r == 0
    ensures x > n ==> r == n
  {
    if x < 0 then 0 else if x > n then n else x
  }

  /** `s.substring(a, b)`: both indices are clamped to the string, and the
      smaller one is taken as the start. */
  function JsSubstring(s: string, a: int, b: int): (r: string)
    ensures |r| <= |s|
  {
    var i, j := Clamp(a, |s|), Clamp(b, |s|);
    if i <= j then s[i..j] else s[j..i]
  }

  /** On in-range indices `substring` is the slice between them, whichever
      argument is the smaller; an index past the end stands for the end, a
      negative one for 0. */
  lemma JsSubstringCases(s: string, a: int, b: int)
    ensures 0 <= a <= b <= |s| ==> JsSubstring(s, a, b) == s[a..b]
    ensures 0 <= b <= a <= |s| ==> JsSubstring(s, a, b) == s[b..a]
    ensures 0 <= a <= |s| < b ==> JsSubstring(s, a, b) == s[a..]
    ensures b < 0 <= a <= |s| ==> JsSubstring(s, a, b) == s[..a]
  {
  }

  // ---------------------------------------------------------------------
  // renderContent
  // ---------------------------------------------------------------------

  /** What `renderContent` yields for one token: the text between the cursor
      and the token (`start`), the token's own text (`word`), and the token
      the word's click handler is bound to. */
  datatype Fragment = Fragment(gap: string, word: string, token: Token)

  /** The cursor `lastIndex` before token `i` is handled: 0 before the first
      token, one past the previous token's last character otherwise. */
  function Cursor(tokens: seq<Token>, i: int): int
    requires 0 <= i <= |tokens|
  {
    if i == 0 then 0 else tokens[i - 1].end + 1
  }

  /** The fragment for token `i`, stated without the running cursor. */
  function FragmentAt(content: string, tokens: seq<Token>, i: int): Fragment
    requires 0 <= i < |tokens|
  {
    var t := tokens[i];
    Fragment(JsSubstring(content, Cursor(tokens, i), t.start), JsSubstring(content, t.start, t.end + 1), t)
  }

  /** The specification of `renderContent`: one fragment per token, in
      token order. */
  function Render(content: string, tokens: seq<Token>): (r: seq<Fragment>)
    ensures |r| == |tokens|
    ensures tokens == [] ==> r == []
  {
    seq(|tokens|, i requires 0 <= i < |tokens| => FragmentAt(content, tokens, i))
  }

  /** `renderContent(page)`: maps the tokens in order, threading the cursor
      `lastIndex`, which each token moves to one past its last character. */
  method RenderContent(page: Page) returns (frags: seq<Fragment>)
    ensures frags == Render(page.content, page.tokens)
    ensures |frags| == |page.tokens|
  {
    var content, tokens := page.content, page.tokens;
    var lastIndex := 0;
    frags := [];
    var index := 0;
    while index < |tokens|
      invariant 0 <= index <= |tokens|
      invariant lastIndex == Cursor(tokens, index)
      invariant |frags| == index
      invariant forall i :: 0 <= i < index ==> frags[i] == FragmentAt(content, tokens, i)
    {
      var token := tokens[index];
      var start := JsSubstring(content, lastIndex, token.start);
      var word := JsSubstring(content, token.start, token.end + 1);
      var f := Fragment(start, word, token);
      assert f == FragmentAt(content, tokens, index);
      lastIndex := token.end + 1;
      frags := frags + [f];
      index := index + 1;
    }
    assert frags == Render(content, tokens);
  }

  /** The fragments of `Render`, one per token and in token order: fragment
      `i` is bound to token `i`, its word is `substring(start, end + 1)`, the
      first gap starts at offset 0, and every later gap starts one past the
      previous token's end. This is the per-index reading of `Render`'s
      definition; the slices it denotes are given by `WellFormedFragments`. */
  lemma RenderShape(content: string, tokens: seq<Token>)
    ensures |Render(content, tokens)| == |tokens|
    ensures forall i :: 0 <= i < |tokens| ==>
      Render(content, tokens)[i].token == tokens[i] &&
      Render(content, tokens)[i].word == JsSubstring(content, tokens[i].start, tokens[i].end + 1)
    ensures tokens != [] ==> Render(content, tokens)[0].gap == JsSubstring(content, 0, tokens[0].start)
    ensures forall i :: 0 < i < |tokens| ==>
      Render(content, tokens)[i].gap == JsSubstring(content, tokens[i - 1].end + 1, tokens[i].start)
  {
    var frags := Render(content, tokens);
    forall i | 0 <= i < |tokens|
      ensures frags[i] == FragmentAt(content, tokens, i)
    {
    }
  }

  /** The text a fragment sequence shows: each gap followed by its word. */
  function Text(frags: seq<Fragment>): string
  {
    if frags == [] then []
    else var n := |frags| - 1; Text(frags[..n]) + frags[n].gap + frags[n].word
  }

  /** Tokens that lie inside the content, are non-empty ranges, and are
      ordered without overlap: every token ends before any later one starts. */
  predicate WellFormed(content: string, tokens: seq<Token>)
  {
    (forall i :: 0 <= i < |tokens| ==> 0 <= tokens[i].start <= tokens[i].end < |content|) &&
    (forall i, j :: 0 <= i < j < |tokens| ==> tokens[i].end < tokens[j].start)
  }

  /** Each token starts after the previous one ends. */
  predicate StartsAfterPrevious(tokens: seq<Token>)
  {
    forall i :: 0 < i < |tokens| ==> tokens[i - 1].end < tokens[i].start
  }

  /** The pairwise ordering of `WellFormed` is the condition on neighbours:
      in-bounds tokens are well formed exactly when each starts after the
      previous one ends. */
  lemma {:induction false} WellFormedIffNeighbours(content: string, tokens: seq<Token>)
    requires forall i :: 0 <= i < |tokens| ==> 0 <= tokens[i].start <= tokens[i].end < |content|
    ensures WellFormed(content, tokens) <==> StartsAfterPrevious(tokens)
  {
    if StartsAfterPrevious(tokens) {
      forall i, j | 0 <= i < j < |tokens| ensures tokens[i].end < tokens[j].start {
        NeighboursChain(content, tokens, i, j);
      }
    }
  }

  lemma {:induction false} NeighboursChain(content: string, tokens: seq<Token>, i: nat, j: nat)
    requires forall i :: 0 <= i < |tokens| ==> 0 <= tokens[i].start <= tokens[i].end < |content|
    requires StartsAfterPrevious(tokens) && i < j < |tokens|
    ensures tokens[i].end < tokens[j].start
    decreases j - i
  {
    if i + 1 < j {
      NeighboursChain(content, tokens, i + 1, j);
      assert tokens[i].end < tokens[i + 1].start;
    }
  }

  /** A token whose `value` is the slice of the content it points at. */
  predicate ValueMatches(content: string, t: Token)
    requires 0 <= t.start <= t.end < |content|
  {
    t.value == content[t.start..t.end + 1]
  }

  /** For well-formed tokens every fragment is a plain slice: the gap runs
      from the cursor to the token's start, the word from the start through
      the end, and the word is the token's value when that value matches
      the content. */
  lemma WellFormedFragments(content: string, tokens: seq<Token>, i: nat)
    requires WellFormed(content, tokens) && i < |tokens|
    ensures Cursor(tokens, i) <= tokens[i].start
    ensures Render(content, tokens)[i].gap == content[Cursor(tokens, i)..tokens[i].start]
    ensures Render(content, tokens)[i].word == content[tokens[i].start..tokens[i].end + 1]
    ensures |Render(content, tokens)[i].word| == tokens[i].end - tokens[i].start + 1
    ensures Render(content, tokens)[i].token == tokens[i]
    ensures ValueMatches(content, tokens[i]) ==> Render(content, tokens)[i].word == tokens[i].value
  {
    if i > 0 {
      assert tokens[i - 1].end < tokens[i].start;
    }
    JsSubstringCases(content, Cursor(tokens, i), tokens[i].start);
    JsSubstringCases(content, tokens[i].start, tokens[i].end + 1);
  }

  /** Showing one more fragment whose gap and word continue a shown prefix
      of the content extends that prefix. */
  lemma TextStep(content: string, frags: seq<Fragment>, k: nat, a: nat, b: nat, c: nat)
    requires 0 < k <= |frags| && a <= b <= c <= |content|
    requires Text(frags[..k - 1]) == content[..a]
    requires frags[k - 1].gap == content[a..b] && frags[k - 1].word == content[b..c]
    ensures Text(frags[..k]) == content[..c]
  {
    assert frags[..k][..k - 1] == frags[..k - 1];
    assert content[..c] == content[..a] + content[a..b] + content[b..c] by {
      assert content[..b] == content[..a] + content[a..b];
      assert content[..c] == content[..b] + content[b..c];
    }
  }

  /** The first `k` fragments show exactly the content up to the cursor
      after token `k - 1`. */
  lemma {:induction false} TextOfPrefix(content: string, tokens: seq<Token>, k: nat)
    requires WellFormed(content, tokens) && k <= |tokens|
    ensures Cursor(tokens, k) <= |content|
    ensures Text(Render(content, tokens)[..k]) == content[..Cursor(tokens, k)]
  {
    if k > 0 {
      TextOfPrefix(content, tokens, k - 1);
      WellFormedFragments(content, tokens, k - 1);
      TextStep(content, Render(content, tokens), k, Cursor(tokens, k - 1), tokens[k - 1].start, tokens[k - 1].end + 1);
    }
  }

  /** For well-formed tokens the rendered text is the content up to the last
      token's end; everything after the last token is dropped, and with no
      tokens nothing is shown. */
  lemma RenderedText(content: string, tokens: seq<Token>)
    requires WellFormed(content, tokens)
    ensures tokens == [] ==> Text(Render(content, tokens)) == []
    ensures tokens != [] ==>
      Text(Render(content, tokens)) == content[..tokens[|tokens| - 1].end + 1]
  {
    var frags := Render(content, tokens);
    TextOfPrefix(content, tokens, |tokens|);
    assert frags[..|tokens|] == frags;
  }

  /** The page's whole content is shown exactly when the last token ends at
      its last character (or the content is empty and there are no tokens). */
  lemma ShowsWholeContent(content: string, tokens: seq<Token>)
    requires WellFormed(content, tokens)
    ensures Text(Render(content, tokens)) == content <==> Cursor(tokens, |tokens|) == |content|
  {
    var frags := Render(content, tokens);
    TextOfPrefix(content, tokens, |tokens|);
    assert frags[..|tokens|] == frags;
  }

  /** "The cat sat" with the single token "cat": the renderer shows
      "The " and "cat", and " sat" is not shown. */
  lemma TrailingTextExample()
    ensures var t := Token(4, 6, "cat");
      Render("The cat sat", [t]) == [Fragment("The ", "cat", t)] &&
      Text(Render("The cat sat", [t])) == "The cat"
  {
    var t := Token(4, 6, "cat");
    var frags := Render("The cat sat", [t]);
    assert frags[0] == Fragment("The ", "cat", t);
    assert frags[..0] == [];
  }

  // ---------------------------------------------------------------------
  // Pagination
  // ---------------------------------------------------------------------

  /** The page index after `handleNextPage`. */
  function NextPage(current: int, pageCount: int): (r: int)
    ensures r == current + 1 <==> current < pageCount - 1
    ensures r == current || r == current + 1
  {
    if current < pageCount - 1 then current + 1 else current
  }

  /** The page index after `handlePrevPage`. */
  function PrevPage(current: int): (r: int)
    ensures r == current - 1 <==> current > 0
    ensures r == current || r == current - 1
  {
    if current > 0 then current - 1 else current
  }

  /** The two pagination buttons. */
  datatype Button = Previous | Next

  function Press(current: int, pageCount: int, b: Button): int
  {
    match b
    case Previous => PrevPage(current)
    case Next => NextPage(current, pageCount)
  }

  /** The page index after pressing `buttons` in order from `current`. */
  function Run(current: int, pageCount: int, buttons: seq<Button>): int
  {
    if buttons == [] then current
    else var n := |buttons| - 1; Press(Run(current, pageCount, buttons[..n]), pageCount, buttons[n])
  }

  /** An index that is either the initial 0 or a page of the book. */
  predicate InRange(current: int, pageCount: int)
  {
    current == 0 || 0 <= current < pageCount
  }

  /** No sequence of presses takes the index out of range. */
  lemma {:induction false} RunInRange(current: int, pageCount: int, buttons: seq<Button>)
    requires InRange(current, pageCount)
    ensures InRange(Run(current, pageCount, buttons), pageCount)
  {
    if buttons != [] {
      var n := |buttons| - 1;
      RunInRange(current, pageCount, buttons[..n]);
    }
  }

  /** `n` presses of the same button. */
  function Repeat(b: Button, n: nat): (r: seq<Button>)
    ensures |r| == n
    ensures forall i :: 0 <= i < n ==> r[i] == b
  {
    seq(n, _ => b)
  }

  /** Next pressed `n` times advances `n` pages but stops at the last one. */
  lemma {:induction false} NextRepeated(current: int, pageCount: int, n: nat)
    requires 0 <= current < pageCount
    ensures Run(current, pageCount, Repeat(Next, n)) ==
      if current + n < pageCount - 1 then current + n else pageCount - 1
  {
    if n > 0 {
      assert Repeat(Next, n)[..n - 1] == Repeat(Next, n - 1);
      NextRepeated(current, pageCount, n - 1);
    }
  }

  /** In a book with no pages, or only one, Next never leaves page 0. */
  lemma {:induction false} NextRepeatedWithoutFurtherPages(pageCount: int, n: nat)
    requires pageCount <= 1
    ensures Run(0, pageCount, Repeat(Next, n)) == 0
  {
    if n > 0 {
      assert Repeat(Next, n)[..n - 1] == Repeat(Next, n - 1);
      NextRepeatedWithoutFurtherPages(pageCount, n - 1);
    }
  }

  /** Previous pressed `n` times goes back `n` pages but stops at page 0. */
  lemma {:induction false} PrevRepeated(current: int, pageCount: int, n: nat)
    requires 0 <= current
    ensures Run(current, pageCount, Repeat(Previous, n)) == if current - n > 0 then current - n else 0
  {
    if n > 0 {
      assert Repeat(Previous, n)[..n - 1] == Repeat(Previous, n - 1);
      PrevRepeated(current, pageCount, n - 1);
    }
  }

  /** From page 0 of a book with at least one page, `pageCount - 1` presses
      of Next reach the last page, and any further press is a no-op; from
      the last page, `pageCount - 1` presses of Previous reach page 0. */
  lemma WalkThroughBook(pageCount: int)
    requires pageCount >= 1
    ensures Run(0, pageCount, Repeat(Next, pageCount - 1)) == pageCount - 1
    ensures NextPage(pageCount - 1, pageCount) == pageCount - 1
    ensures Run(pageCount - 1, pageCount, Repeat(Previous, pageCount - 1)) == 0
    ensures PrevPage(0) == 0
  {
    NextRepeated(0, pageCount, pageCount - 1);
    PrevRepeated(pageCount - 1, pageCount, pageCount - 1);
  }

  /** The `currentPage` state of one mounted `Book` component. `pageCount`
      is `book.pages.length`; `history` records the buttons pressed so far. */
  class Pager {
    var currentPage: int
    const pageCount: int
    ghost var history: seq<Button>

    ghost predicate Valid()
      reads this
    {
      currentPage == Run(0, pageCount, history) && InRange(currentPage, pageCount)
    }

    /** `useState(0)`. */
    constructor (pageCount: int)
      ensures Valid()
      ensures currentPage == 0 && this.pageCount == pageCount && history == []
    {
      currentPage := 0;
      this.pageCount := pageCount;
      history := [];
    }

    /** `handleNextPage`. */
    method HandleNextPage()
      requires Valid()
      modifies this
      ensures Valid()
      ensures history == old(history) + [Next]
      ensures old(currentPage) < pageCount - 1 ==> currentPage == old(currentPage) + 1
      ensures old(currentPage) >= pageCount - 1 ==> currentPage == old(currentPage)
    {
      if currentPage < pageCount - 1 {
        currentPage := currentPage + 1;
      }
      history := history + [Next];
      assert history[..|history| - 1] == old(history);
    }

    /** `handlePrevPage`. */
    method HandlePrevPage()
      requires Valid()
      modifies this
      ensures Valid()
      ensures history == old(history) + [Previous]
      ensures old(currentPage) > 0 ==> currentPage == old(currentPage) - 1
      ensures old(currentPage) <= 0 ==> currentPage == old(currentPage)
    {
      if currentPage > 0 {
        currentPage := currentPage - 1;
      }
      history := history + [Previous];
      assert history[..|history| - 1] == old(history);
    }
  }
}
