/**
 * The content filter of the mega-menu dropdown. The menu is a three-level tree:
 * blocks hold groups, groups hold links. Filtering keeps a group whole when its
 * title matches a word of the query, otherwise keeps only its matching links,
 * and then drops every group without links and every block without groups.
 */
module MegaMenuFilter {
  import opened JsString
  import opened Seqs
  import opened MegaMenuWords

  /** A leaf of the menu: a label shown to the user and the address it leads to. */
  datatype NavLink = NavLink(labelText: string, url: string)

  /** A group: its own title link and the links under it. */
  datatype Group = Group(title: NavLink, content: seq<NavLink>)

  /** A block: a title that is never searched, and its groups. */
  datatype Block = Block(title: string, content: seq<Group>)

  /** The whole menu, in display order. */
  type Content = seq<Block>

  /** `_containsWordsOnTheFilter`: some word occurs in the lower-cased label. */
  function ContainsWordsOnTheFilter(text: string, words: seq<string>): (r: bool)
    ensures r <==> exists k :: 0 <= k < |words| && IsSubstring(words[k], ToLowerCase(text))
  {
    if words == [] then false
    else
      var r := Includes(ToLowerCase(text), words[0]) || ContainsWordsOnTheFilter(text, words[1..]);
      assert forall k :: 1 <= k < |words| ==> words[k] == words[1..][k - 1];
      r
  }

  /** The link test used inside a group whose title did not match: some word occurs
      in the link's lower-cased label. */
  function LinkMatches(words: seq<string>): (r: NavLink -> bool)
    ensures forall link :: r(link) <==> exists k :: 0 <= k < |words| && IsSubstring(words[k], ToLowerCase(link.labelText))
  {
    (link: NavLink) => ContainsWordsOnTheFilter(link.labelText, words)
  }

  /** `_filterMegaDropdownGroup`: the group keeps its title and loses links, never
      gains them (`GroupRule` says exactly which it keeps). */
  function FilterMegaDropdownGroup(group: Group, words: seq<string>): (r: Group)
    ensures r.title == group.title && |r.content| <= |group.content|
  {
    if ContainsWordsOnTheFilter(group.title.labelText, words) then group
    else Group(group.title, Filter(group.content, LinkMatches(words)))
  }

  /** A group that still has links after filtering. */
  predicate HasLinks(group: Group) {
    |group.content| > 0
  }

  /** `block.content.map(group => _filterMegaDropdownGroup(group, words))`. */
  function FilterEachGroup(groups: seq<Group>, words: seq<string>): (r: seq<Group>)
    ensures |r| == |groups|
    ensures forall i :: 0 <= i < |groups| ==> r[i] == FilterMegaDropdownGroup(groups[i], words)
  {
    if groups == [] then []
    else [FilterMegaDropdownGroup(groups[0], words)] + FilterEachGroup(groups[1..], words)
  }

  /** `_filterMegaDropdownBlock`: the block keeps its title, and every group left in
      it has links (`BlockRule` says exactly which groups are left). */
  function FilterMegaDropdownBlock(block: Block, words: seq<string>): (r: Block)
    ensures r.title == block.title && |r.content| <= |block.content|
    ensures forall group :: group in r.content ==> HasLinks(group)
  {
    Block(block.title, Filter(FilterEachGroup(block.content, words), HasLinks))
  }

  /** A block that still has groups after filtering. */
  predicate HasGroups(block: Block) {
    |block.content| > 0
  }

  /** `content.map(block => _filterMegaDropdownBlock(block, words))`. */
  function FilterEachBlock(blocks: seq<Block>, words: seq<string>): (r: seq<Block>)
    ensures |r| == |blocks|
    ensures forall i :: 0 <= i < |blocks| ==> r[i] == FilterMegaDropdownBlock(blocks[i], words)
  {
    if blocks == [] then []
    else [FilterMegaDropdownBlock(blocks[0], words)] + FilterEachBlock(blocks[1..], words)
  }

  /** `_filterContent`, with the filter input's value passed in: never more blocks
      than before, and after a non-blank query only blocks with groups
      (`ContentRule` says exactly which blocks are left). */
  function FilterContent(content: Content, input: string): (r: Content)
    ensures |r| <= |content|
    ensures !IsFilterTextEmpty(input) ==> forall block :: block in r ==> HasGroups(block)
  {
    if IsFilterTextEmpty(input) then content
    else Filter(FilterEachBlock(content, WordsOnTheFilter(input)), HasGroups)
  }

  // ---------------------------------------------------------------------------
  // Order preservation: the result is the input with elements deleted at every level.

  /** `r` is `g` with some of its links deleted and the same title. */
  ghost predicate GroupPrunedFrom(r: Group, g: Group) {
    r.title == g.title && IsSubsequence(r.content, g.content)
  }

  /** `r` is obtained from `s` by deleting groups and pruning the ones kept, in order. */
  ghost predicate GroupsPruned(r: seq<Group>, s: seq<Group>)
    decreases |s|
  {
    r == [] ||
    (s != [] && ((GroupPrunedFrom(r[0], s[0]) && GroupsPruned(r[1..], s[1..])) || GroupsPruned(r, s[1..])))
  }

  /** `r` is `b` with the same title and its groups pruned. */
  ghost predicate BlockPrunedFrom(r: Block, b: Block) {
    r.title == b.title && GroupsPruned(r.content, b.content)
  }

  /** `r` is obtained from `s` by deleting blocks and pruning the ones kept, in order. */
  ghost predicate BlocksPruned(r: seq<Block>, s: seq<Block>)
    decreases |s|
  {
    r == [] ||
    (s != [] && ((BlockPrunedFrom(r[0], s[0]) && BlocksPruned(r[1..], s[1..])) || BlocksPruned(r, s[1..])))
  }

  lemma {:induction false} GroupsPrunedReflexive(groups: seq<Group>)
    ensures GroupsPruned(groups, groups)
  {
    if groups != [] {
      SubsequenceReflexive(groups[0].content);
      GroupsPrunedReflexive(groups[1..]);
    }
  }

  lemma {:induction false} BlocksPrunedReflexive(blocks: seq<Block>)
    ensures BlocksPruned(blocks, blocks)
  {
    if blocks != [] {
      GroupsPrunedReflexive(blocks[0].content);
      BlocksPrunedReflexive(blocks[1..]);
    }
  }

  /** The group rule. A group whose title contains a word comes back unchanged, with
      all of its links. Otherwise it keeps its title, and its links become exactly
      the ones whose label contains a word, each as often as before, in their order. */
  lemma GroupRule(group: Group, words: seq<string>)
    ensures FilterMegaDropdownGroup(group, words).title == group.title
    ensures ContainsWordsOnTheFilter(group.title.labelText, words) ==>
      FilterMegaDropdownGroup(group, words) == group
    ensures !ContainsWordsOnTheFilter(group.title.labelText, words) ==>
      var links := FilterMegaDropdownGroup(group, words).content;
      IsSubsequence(links, group.content) &&
      (forall link :: link in links <==> link in group.content && ContainsWordsOnTheFilter(link.labelText, words)) &&
      (forall link :: multiset(links)[link] ==
         if ContainsWordsOnTheFilter(link.labelText, words) then multiset(group.content)[link] else 0)
  {
    if !ContainsWordsOnTheFilter(group.title.labelText, words) {
      FilterIsSubsequence(group.content, LinkMatches(words));
      forall link {
        FilterMultiplicity(group.content, LinkMatches(words), link);
      }
    }
  }

  /** A filtered group is its input with links deleted. */
  lemma GroupPruned(group: Group, words: seq<string>)
    ensures GroupPrunedFrom(FilterMegaDropdownGroup(group, words), group)
  {
    SubsequenceReflexive(group.content);
    FilterIsSubsequence(group.content, LinkMatches(words));
  }

  lemma {:induction false} GroupsPrunedByFilter(groups: seq<Group>, words: seq<string>)
    ensures GroupsPruned(Filter(FilterEachGroup(groups, words), HasLinks), groups)
  {
    if groups != [] {
      var head := FilterMegaDropdownGroup(groups[0], words);
      var tail := Filter(FilterEachGroup(groups[1..], words), HasLinks);
      GroupsPrunedByFilter(groups[1..], words);
      assert FilterEachGroup(groups, words) == [head] + FilterEachGroup(groups[1..], words);
      FilterCons(head, FilterEachGroup(groups[1..], words), HasLinks);
      var r := Filter(FilterEachGroup(groups, words), HasLinks);
      if HasLinks(head) {
        GroupPruned(groups[0], words);
        assert r == [head] + tail;
        assert r[0] == head && r[1..] == tail;
      } else {
        assert r == tail;
      }
    }
  }

  /** The block rule. The title carries over, the groups left are exactly the filtered
      groups that still have links, each as often as before and in their order, and the
      block's title plays no part in which groups are left. */
  lemma BlockRule(block: Block, words: seq<string>)
    ensures FilterMegaDropdownBlock(block, words).title == block.title
    ensures GroupsPruned(FilterMegaDropdownBlock(block, words).content, block.content)
    ensures IsSubsequence(FilterMegaDropdownBlock(block, words).content, FilterEachGroup(block.content, words))
    ensures forall group :: group in FilterMegaDropdownBlock(block, words).content <==>
      HasLinks(group) &&
      exists i :: 0 <= i < |block.content| && group == FilterMegaDropdownGroup(block.content[i], words)
    ensures forall group :: multiset(FilterMegaDropdownBlock(block, words).content)[group] ==
              (if HasLinks(group) then multiset(FilterEachGroup(block.content, words))[group] else 0)
    ensures forall title ::
      FilterMegaDropdownBlock(Block(title, block.content), words).content == FilterMegaDropdownBlock(block, words).content
  {
    GroupsPrunedByFilter(block.content, words);
    FilterExact(FilterEachGroup(block.content, words), HasLinks);
    GroupsKept(block.content, words);
  }

  /** A group is left exactly when it is the filtered form, with links, of some group. */
  lemma GroupsKept(groups: seq<Group>, words: seq<string>)
    ensures forall group :: group in Filter(FilterEachGroup(groups, words), HasLinks) <==>
      HasLinks(group) && exists i :: 0 <= i < |groups| && group == FilterMegaDropdownGroup(groups[i], words)
  {
    var mapped := FilterEachGroup(groups, words);
    forall i | 0 <= i < |mapped| && HasLinks(mapped[i])
      ensures mapped[i] in Filter(mapped, HasLinks)
    {
    }
  }

  /** A filtered block is its input with groups deleted and the groups left pruned. */
  lemma BlockPruned(block: Block, words: seq<string>)
    ensures BlockPrunedFrom(FilterMegaDropdownBlock(block, words), block)
  {
    GroupsPrunedByFilter(block.content, words);
  }

  /** The first block, pruned or deleted, in front of the rest pruned. */
  lemma BlocksPrunedHead(r: seq<Block>, head: Block, tail: seq<Block>, blocks: seq<Block>)
    requires blocks != [] && BlocksPruned(tail, blocks[1..])
    requires r == (if HasGroups(head) then [head] else []) + tail
    requires HasGroups(head) ==> BlockPrunedFrom(head, blocks[0])
    ensures BlocksPruned(r, blocks)
  {
    if HasGroups(head) {
      assert r[0] == head && r[1..] == tail;
    } else {
      assert r == tail;
    }
  }

  lemma {:induction false} BlocksPrunedByFilter(blocks: seq<Block>, words: seq<string>)
    ensures BlocksPruned(Filter(FilterEachBlock(blocks, words), HasGroups), blocks)
  {
    if blocks != [] {
      var head := FilterMegaDropdownBlock(blocks[0], words);
      BlocksPrunedByFilter(blocks[1..], words);
      assert FilterEachBlock(blocks, words) == [head] + FilterEachBlock(blocks[1..], words);
      FilterCons(head, FilterEachBlock(blocks[1..], words), HasGroups);
      BlockPruned(blocks[0], words);
      BlocksPrunedHead(Filter(FilterEachBlock(blocks, words), HasGroups), head,
                       Filter(FilterEachBlock(blocks[1..], words), HasGroups), blocks);
    }
  }

  /** Filtering preserves order at every level: the result is the input with blocks,
      groups and links deleted, and every block and group title carried over as it was. */
  lemma FilterContentPrunes(content: Content, input: string)
    ensures BlocksPruned(FilterContent(content, input), content)
  {
    if IsFilterTextEmpty(input) {
      BlocksPrunedReflexive(content);
    } else {
      BlocksPrunedByFilter(content, WordsOnTheFilter(input));
    }
  }

  /** The content rule for a list of words. The blocks left are exactly the filtered
      blocks that still have groups, each as often as before and in their order. */
  lemma BlocksRule(blocks: seq<Block>, words: seq<string>)
    ensures IsSubsequence(Filter(FilterEachBlock(blocks, words), HasGroups), FilterEachBlock(blocks, words))
    ensures forall block :: block in Filter(FilterEachBlock(blocks, words), HasGroups) <==>
      HasGroups(block) && exists i :: 0 <= i < |blocks| && block == FilterMegaDropdownBlock(blocks[i], words)
    ensures forall block :: multiset(Filter(FilterEachBlock(blocks, words), HasGroups))[block] ==
              (if HasGroups(block) then multiset(FilterEachBlock(blocks, words))[block] else 0)
  {
    FilterExact(FilterEachBlock(blocks, words), HasGroups);
    BlocksKept(blocks, words);
  }

  /** A block is left exactly when it is the filtered form, with groups, of some block. */
  lemma BlocksKept(blocks: seq<Block>, words: seq<string>)
    ensures forall block :: block in Filter(FilterEachBlock(blocks, words), HasGroups) <==>
      HasGroups(block) && exists i :: 0 <= i < |blocks| && block == FilterMegaDropdownBlock(blocks[i], words)
  {
    var mapped := FilterEachBlock(blocks, words);
    forall i | 0 <= i < |mapped| && HasGroups(mapped[i])
      ensures mapped[i] in Filter(mapped, HasGroups)
    {
    }
  }

  /** After a non-blank query the content is exactly the filtered blocks that still have
      groups, each as often as before and in their order: a block whose filtered form has
      groups is kept. */
  lemma ContentRule(content: Content, input: string)
    requires !IsFilterTextEmpty(input)
    ensures IsSubsequence(FilterContent(content, input), FilterEachBlock(content, WordsOnTheFilter(input)))
    ensures forall block :: block in FilterContent(content, input) <==>
      HasGroups(block) &&
      exists i :: 0 <= i < |content| && block == FilterMegaDropdownBlock(content[i], WordsOnTheFilter(input))
    ensures forall block :: multiset(FilterContent(content, input))[block] ==
              (if HasGroups(block) then multiset(FilterEachBlock(content, WordsOnTheFilter(input)))[block] else 0)
  {
    BlocksRule(content, WordsOnTheFilter(input));
  }

  // ---------------------------------------------------------------------------
  // Empty query, survivors, idempotence.

  /** A query of nothing but whitespace leaves the content as it is. */
  lemma BlankQueryIsIdentity(content: Content, input: string)
    requires forall k :: 0 <= k < |input| ==> IsWhitespace(input[k])
    ensures FilterContent(content, input) == content
  {
    BlankQueryHasNoWords(input);
  }

  /** Every group a filtered block keeps has links. */
  lemma FilteredGroupsHaveLinks(block: Block, words: seq<string>)
    ensures forall group :: group in FilterMegaDropdownBlock(block, words).content ==> HasLinks(group)
  {
  }

  /** Every block a filter pass over the blocks keeps has groups, all with links. */
  lemma FilteredBlocksNonEmpty(blocks: seq<Block>, words: seq<string>)
    ensures forall block :: block in Filter(FilterEachBlock(blocks, words), HasGroups) ==>
      HasGroups(block) && forall group :: group in block.content ==> HasLinks(group)
  {
    var mapped := FilterEachBlock(blocks, words);
    forall block | block in Filter(mapped, HasGroups)
      ensures forall group :: group in block.content ==> HasLinks(group)
    {
      var i :| 0 <= i < |mapped| && mapped[i] == block;
      FilteredGroupsHaveLinks(blocks[i], words);
    }
  }

  /** After a non-blank query every block left has groups and every group left has
      links; so a group whose title matches but that has no links is dropped. */
  lemma SurvivorsAreNonEmpty(content: Content, input: string)
    requires !IsFilterTextEmpty(input)
    ensures forall block :: block in FilterContent(content, input) ==>
      HasGroups(block) && forall group :: group in block.content ==> HasLinks(group)
  {
    FilteredBlocksNonEmpty(content, WordsOnTheFilter(input));
  }

  /** A matching title alone does not keep a group: the title rule hands the group back
      unchanged, but with no links it is then dropped from its block. */
  lemma TitleMatchWithoutLinksIsDropped(block: Block, words: seq<string>, i: nat)
    requires i < |block.content| && block.content[i].content == []
    requires ContainsWordsOnTheFilter(block.content[i].title.labelText, words)
    ensures FilterMegaDropdownGroup(block.content[i], words) == block.content[i]
    ensures block.content[i] !in FilterMegaDropdownBlock(block, words).content
  {
  }

  /** Filtering a filtered group again changes nothing. */
  lemma GroupFilterIdempotent(group: Group, words: seq<string>)
    ensures FilterMegaDropdownGroup(FilterMegaDropdownGroup(group, words), words) ==
      FilterMegaDropdownGroup(group, words)
  {
    FilterIdempotent(group.content, LinkMatches(words));
  }

  /** Filtering a filtered block again changes nothing. */
  lemma BlockFilterIdempotent(block: Block, words: seq<string>)
    ensures FilterMegaDropdownBlock(FilterMegaDropdownBlock(block, words), words) ==
      FilterMegaDropdownBlock(block, words)
  {
    var once := Filter(FilterEachGroup(block.content, words), HasLinks);
    forall i | 0 <= i < |once|
      ensures FilterMegaDropdownGroup(once[i], words) == once[i]
    {
      assert once[i] in FilterEachGroup(block.content, words);
      var j :| 0 <= j < |block.content| && once[i] == FilterMegaDropdownGroup(block.content[j], words);
      GroupFilterIdempotent(block.content[j], words);
    }
    assert FilterEachGroup(once, words) == once;
    FilterKeepsAll(once, HasLinks);
  }

  /** Filtering the blocks left by a filter pass again changes nothing. */
  lemma BlocksFilterIdempotent(blocks: seq<Block>, words: seq<string>)
    ensures Filter(FilterEachBlock(Filter(FilterEachBlock(blocks, words), HasGroups), words), HasGroups) ==
      Filter(FilterEachBlock(blocks, words), HasGroups)
  {
    var once := Filter(FilterEachBlock(blocks, words), HasGroups);
    forall i | 0 <= i < |once|
      ensures FilterMegaDropdownBlock(once[i], words) == once[i]
    {
      assert once[i] in FilterEachBlock(blocks, words);
      var j :| 0 <= j < |blocks| && once[i] == FilterMegaDropdownBlock(blocks[j], words);
      BlockFilterIdempotent(blocks[j], words);
    }
    assert FilterEachBlock(once, words) == once;
    FilterKeepsAll(once, HasGroups);
  }

  /** Filtering twice with the same query gives what filtering once gives. */
  lemma FilterContentIdempotent(content: Content, input: string)
    ensures FilterContent(FilterContent(content, input), input) == FilterContent(content, input)
  {
    if !IsFilterTextEmpty(input) {
      BlocksFilterIdempotent(content, WordsOnTheFilter(input));
    }
  }
}
