/**
 * The keyboard shortcuts of src/components/KeyboardShortcuts/index.tsx: which
 * navigation action a keydown event dispatches, given the component's props,
 * and how mapStateToProps derives three of those props from the router
 * location and the loaded file tree.  Dispatching is modelled by returning
 * the action's description (an Intent); the reducers that carry the actions
 * out are not part of this model, so their inputs (the diff of a comparison,
 * the linter's message map) are type parameters the listener passes through.
 */
module KeyboardShortcuts {

  import opened Wrappers

  /** The keys the listener reacts to. */
  const ShortcutKeys: seq<string> := ["k", "j", "e", "o", "c", "n", "p", "a", "z"]

  /** `RelativePathPosition`. */
  datatype RelativePosition = Previous | Next

  /** The fields of a KeyboardEvent that the listener reads. */
  datatype KeyEvent = KeyEvent(key: string, altKey: bool, ctrlKey: bool, metaKey: bool, shiftKey: bool)

  /** A comparison between two versions; only its diff is read here. */
  datatype CompareInfo<Diff> = CompareInfo(diff: Diff)

  /** The component's props that the listener reads. */
  datatype Props<Diff, MessageMap> = Props(
    compareInfo: Option<CompareInfo<Diff>>,
    currentAnchor: string,
    currentPath: string,
    messageMap: Option<MessageMap>,
    messageUid: string,
    pathList: Option<seq<string>>,
    versionId: int)

  /** The action the listener dispatches. */
  datatype Intent<Diff, MessageMap> =
    | RelativeFile(currentPath: string, pathList: seq<string>, position: RelativePosition, versionId: int)
    | ExpandTree(versionId: int)
    | CollapseTree(versionId: int)
    | RelativeDiff(currentAnchor: string, diff: Diff, pathList: seq<string>, position: RelativePosition, versionId: int)
    | RelativeMessage(currentMessageUid: string, currentPath: string, messageMap: MessageMap,
                      pathList: seq<string>, position: RelativePosition, versionId: int)

  predicate NoModifier(event: KeyEvent)
  {
    !event.altKey && !event.ctrlKey && !event.metaKey && !event.shiftKey
  }

  /**
   * The keydown listener: None when it dispatches nothing (no tree loaded,
   * a modifier held, another key, or the diff or message map missing).
   */
  function KeydownIntent<D, M>(props: Props<D, M>, event: KeyEvent): (r: Option<Intent<D, M>>)
    ensures r.Some? <==>
      props.pathList.Some? && NoModifier(event) &&
      (event.key in ["k", "j", "e", "o", "c"] ||
       (event.key in ["n", "p"] && props.compareInfo.Some?) ||
       (event.key in ["a", "z"] && props.messageMap.Some?))
    ensures r.Some? ==> event.key in ShortcutKeys && r.value.versionId == props.versionId
  {
    if props.pathList.None? then None
    else if !(NoModifier(event) && event.key in ShortcutKeys) then None
    else
      var pathList := props.pathList.value;
      var key := event.key;
      if key == "k" then
        Some(RelativeFile(props.currentPath, pathList, Previous, props.versionId))
      else if key == "j" then
        Some(RelativeFile(props.currentPath, pathList, Next, props.versionId))
      else if key == "e" || key == "o" then
        Some(ExpandTree(props.versionId))
      else if key == "c" then
        Some(CollapseTree(props.versionId))
      else if key == "n" || key == "p" then
        if props.compareInfo.Some? then
          Some(RelativeDiff(props.currentAnchor, props.compareInfo.value.diff, pathList,
                            if key == "n" then Next else Previous, props.versionId))
        else None
      else if key == "z" || key == "a" then
        if props.messageMap.Some? then
          Some(RelativeMessage(props.messageUid, props.currentPath, props.messageMap.value, pathList,
                               if key == "z" then Next else Previous, props.versionId))
        else None
      else None
  }

  /** k and j move to the previous and next file; nothing else differs. */
  lemma FileKeys<D, M>(props: Props<D, M>, event: KeyEvent)
    requires props.pathList.Some? && NoModifier(event)
    ensures KeydownIntent(props, event.(key := "k"))
      == Some(RelativeFile(props.currentPath, props.pathList.value, Previous, props.versionId))
    ensures KeydownIntent(props, event.(key := "j"))
      == Some(RelativeFile(props.currentPath, props.pathList.value, Next, props.versionId))
  {
  }

  /** e is kept as a synonym of o: both expand every folder; c collapses them. */
  lemma TreeKeys<D, M>(props: Props<D, M>, event: KeyEvent)
    requires props.pathList.Some? && NoModifier(event)
    ensures KeydownIntent(props, event.(key := "e")) == KeydownIntent(props, event.(key := "o"))
      == Some(ExpandTree(props.versionId))
    ensures KeydownIntent(props, event.(key := "c")) == Some(CollapseTree(props.versionId))
  {
  }

  /** n and p move through the diff, and only when a comparison is loaded. */
  lemma DiffKeys<D, M>(props: Props<D, M>, event: KeyEvent)
    requires props.pathList.Some? && NoModifier(event)
    ensures props.compareInfo.None? ==>
      KeydownIntent(props, event.(key := "n")) == None && KeydownIntent(props, event.(key := "p")) == None
    ensures props.compareInfo.Some? ==>
      var ci := props.compareInfo.value;
      KeydownIntent(props, event.(key := "n"))
        == Some(RelativeDiff(props.currentAnchor, ci.diff, props.pathList.value, Next, props.versionId)) &&
      KeydownIntent(props, event.(key := "p"))
        == Some(RelativeDiff(props.currentAnchor, ci.diff, props.pathList.value, Previous, props.versionId))
  {
  }

  /** z and a move through the linter messages, and only when there is a message map. */
  lemma MessageKeys<D, M>(props: Props<D, M>, event: KeyEvent)
    requires props.pathList.Some? && NoModifier(event)
    ensures props.messageMap.None? ==>
      KeydownIntent(props, event.(key := "z")) == None && KeydownIntent(props, event.(key := "a")) == None
    ensures props.messageMap.Some? ==>
      var mm := props.messageMap.value;
      KeydownIntent(props, event.(key := "z")) == Some(RelativeMessage(props.messageUid, props.currentPath, mm,
        props.pathList.value, Next, props.versionId)) &&
      KeydownIntent(props, event.(key := "a")) == Some(RelativeMessage(props.messageUid, props.currentPath, mm,
        props.pathList.value, Previous, props.versionId))
  {
  }

  /** Each navigation intent carries the path list it was given. */
  lemma IntentCarriesPathList<D, M>(props: Props<D, M>, event: KeyEvent)
    requires KeydownIntent(props, event).Some?
    ensures var i := KeydownIntent(props, event).value;
      (i.RelativeFile? || i.RelativeDiff? || i.RelativeMessage?) ==> i.pathList == props.pathList.value
    ensures var i := KeydownIntent(props, event).value;
      (i.RelativeFile? || i.RelativeMessage?) ==> i.currentPath == props.currentPath
  {
  }

  // ---------------------------------------------------------------------------
  // mapStateToProps

  /** What `queryString.parse(location.search)` holds under `messageUid`. */
  datatype QueryValue = Absent | Null | Single(value: string) | Multiple(values: seq<string>)

  /** The router location's parts that are read. */
  datatype Location = Location(messageUid: QueryValue, hash: string)

  /** The props mapStateToProps derives. */
  datatype StateProps = StateProps(currentAnchor: string, messageUid: string, pathList: Option<seq<string>>)

  /** `hash.replace(/^#/, '')`: one leading '#' removed. */
  function StripHash(hash: string): (r: string)
    ensures "#" + r == hash || r == hash
    ensures |hash| > 0 && hash[0] == '#' ==> "#" + r == hash
    ensures |r| > 0 && r[0] == '#' ==> "#" + r == hash
  {
    if |hash| > 0 && hash[0] == '#' then
      assert "#" + hash[1..] == hash;
      hash[1..]
    else hash
  }

  /** Adding '#' in front is undone, and only the first of several '#' goes. */
  lemma StripHashRoundTrip(anchor: string)
    ensures StripHash("#" + anchor) == anchor
    ensures |anchor| > 0 && anchor[0] == '#' ==> StripHash("#" + anchor)[0] == '#'
  {
    assert ("#" + anchor)[1..] == anchor;
  }

  /** `messageUid` as the component uses it: '' unless exactly one string was given. */
  function MessageUid(q: QueryValue): (uid: string)
    ensures q.Single? ==> uid == q.value
    ensures uid != "" ==> q == Single(uid)
  {
    match q
    case Single(v) => v
    case _ => ""
  }

  /**
   * mapStateToProps.  `tree` is what `getTree(state.fileTree, versionId)`
   * returns, reduced to its path list; None when no tree is loaded.
   */
  function MapStateToProps(location: Location, tree: Option<seq<string>>): (p: StateProps)
    ensures p.pathList.None? <==> tree.None?
    ensures tree.Some? ==> p.pathList == tree
    ensures p.currentAnchor == StripHash(location.hash)
    ensures p.messageUid == MessageUid(location.messageUid)
  {
    StateProps(StripHash(location.hash), MessageUid(location.messageUid), if tree.Some? then tree else None)
  }

  /** The full props: the public ones and the derived ones. */
  function WithStateProps<D, M>(compareInfo: Option<CompareInfo<D>>, currentPath: string, messageMap: Option<M>,
                                versionId: int, sp: StateProps): Props<D, M>
  {
    Props(compareInfo, sp.currentAnchor, currentPath, messageMap, sp.messageUid, sp.pathList, versionId)
  }

  /** Until a tree is loaded for the version, no key does anything. */
  lemma NoTreeNoShortcuts<D, M>(compareInfo: Option<CompareInfo<D>>, currentPath: string, messageMap: Option<M>,
                                versionId: int, location: Location, event: KeyEvent)
    ensures var props := WithStateProps(compareInfo, currentPath, messageMap, versionId, MapStateToProps(location, None));
      KeydownIntent(props, event) == None
  {
  }

  /** A diff step starts from the location's anchor without its '#'. */
  lemma DiffStartsAtAnchor<D, M>(compareInfo: Option<CompareInfo<D>>, currentPath: string, messageMap: Option<M>,
                                 versionId: int, location: Location, tree: seq<string>, event: KeyEvent)
    requires compareInfo.Some? && NoModifier(event) && event.key == "n"
    ensures var props := WithStateProps(compareInfo, currentPath, messageMap, versionId, MapStateToProps(location, Some(tree)));
      KeydownIntent(props, event)
        == Some(RelativeDiff(StripHash(location.hash), compareInfo.value.diff, tree, Next, versionId))
  {
  }

  /** A message step starts from the `messageUid` query value, or '' when there is not exactly one. */
  lemma MessageStartsAtUid<D, M>(compareInfo: Option<CompareInfo<D>>, currentPath: string, messageMap: Option<M>,
                                 versionId: int, location: Location, tree: seq<string>, event: KeyEvent)
    requires messageMap.Some? && NoModifier(event) && event.key == "z"
    ensures var props := WithStateProps(compareInfo, currentPath, messageMap, versionId, MapStateToProps(location, Some(tree)));
      KeydownIntent(props, event)
        == Some(RelativeMessage(if location.messageUid.Single? then location.messageUid.value else "",
                                currentPath, messageMap.value, tree, Next, versionId))
  {
  }
}
