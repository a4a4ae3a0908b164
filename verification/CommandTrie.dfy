/** The trie of command keys: nodes on the heap, walked and grown in place. */
module CommandTrie {
  import opened Wrappers
  import opened CommandTable
  import opened PlainText

  /** The parts of an event the search and the handlers use. */
  class Event {
    const message: string
    var commandSize: Option<nat>

    constructor (message: string)
      ensures this.message == message && commandSize == None
    {
      this.message, commandSize := message, None;
    }
  }

  class TrieNode {
    var childs: map<char, TrieNode>
    var service: Option<Service>
    var commandSize: nat

    constructor ()
      ensures childs == map[] && service == None
    {
      childs, service, commandSize := map[], None, 0;
    }
  }

  function Front(p: string): string
    requires p != ""
  {
    p[..|p| - 1]
  }

  function Last(p: string): char
    requires p != ""
  {
    p[|p| - 1]
  }

  /** A path is its front and its last character, in one way. */
  lemma OnePath(p: string, c: char)
    ensures Front(p + [c]) == p && Last(p + [c]) == c
  {
  }

  /** The nodes form a tree: a child for every path that goes on, a parent for
      every path but the empty one, and one path to every node. */
  ghost predicate IsTree(root: TrieNode, nodes: map<string, TrieNode>, links: map<TrieNode, map<char, TrieNode>>) {
    && "" in nodes && nodes[""] == root
    && ChildrenOk(nodes, links)
    && (forall p | p in nodes && p != "" :: Front(p) in nodes && Last(p) in links[nodes[Front(p)]])
    && (forall p, q | p in nodes && q in nodes && nodes[p] == nodes[q] :: p == q)
  }

  lemma PathNode(root: TrieNode, nodes: map<string, TrieNode>, links: map<TrieNode, map<char, TrieNode>>, path: string)
    requires IsTree(root, nodes, links) && path in nodes
    ensures nodes[path] in nodes.Values && nodes[path] in links
    ensures forall p | p in nodes && p != path :: nodes[p] != nodes[path]
  {
  }

  lemma ChildIs(root: TrieNode, nodes: map<string, TrieNode>, links: map<TrieNode, map<char, TrieNode>>, path: string,
                ch: char)
    requires IsTree(root, nodes, links) && path in nodes
    ensures nodes[path] in links
    ensures path + [ch] in nodes <==> ch in links[nodes[path]]
    ensures path + [ch] in nodes ==> links[nodes[path]][ch] == nodes[path + [ch]]
  {
    OnePath(path, ch);
  }

  lemma ValuesGrow<T>(nodes: map<string, T>, path: string, child: T)
    ensures path !in nodes ==> nodes[path := child].Values == nodes.Values + {child}
  {
    if path !in nodes {
      var grown := nodes[path := child];
      forall n | n in nodes.Values + {child}
        ensures n in grown.Values
      {
        if n == child {
          assert grown[path] == n;
        } else {
          var p :| p in nodes && nodes[p] == n;
          assert grown[p] == n;
        }
      }
    }
  }

  /** Children lead to nodes. */
  ghost predicate ChildrenOk(nodes: map<string, TrieNode>, links: map<TrieNode, map<char, TrieNode>>) {
    && (forall p | p in nodes :: nodes[p] in links)
    && (forall p, c | p in nodes && c in links[nodes[p]] :: p + [c] in nodes && links[nodes[p]][c] == nodes[p + [c]])
  }

  lemma ChildrenGrow(nodes: map<string, TrieNode>, links: map<TrieNode, map<char, TrieNode>>, path: string, ch: char,
                     child: TrieNode)
    requires ChildrenOk(nodes, links) && path in nodes && path + [ch] !in nodes && child !in nodes.Values
    requires forall p | p in nodes && nodes[p] == nodes[path] :: p == path
    ensures var node := nodes[path];
      ChildrenOk(nodes[path + [ch] := child], links[node := links[node][ch := child]][child := map[]])
  {
    var longer, node := path + [ch], nodes[path];
    var nodes', links' := nodes[longer := child], links[node := links[node][ch := child]][child := map[]];
    forall p, c | p in nodes' && c in links'[nodes'[p]]
      ensures p + [c] in nodes' && links'[nodes'[p]][c] == nodes'[p + [c]]
    {
      OnePath(p, c);
      OnePath(path, ch);
      if !(p == path && c == ch) {
        assert p in nodes && c in links[nodes[p]];
      }
    }
  }

  lemma TreeGrows(root: TrieNode, nodes: map<string, TrieNode>, links: map<TrieNode, map<char, TrieNode>>,
                  path: string, ch: char, child: TrieNode)
    requires IsTree(root, nodes, links) && path in nodes && ch !in links[nodes[path]] && child !in nodes.Values
    ensures path + [ch] !in nodes
    ensures var node := nodes[path];
      IsTree(root, nodes[path + [ch] := child], links[node := links[node][ch := child]][child := map[]])
  {
    hide ChildrenOk;
    OnePath(path, ch);
    ChildrenGrow(nodes, links, path, ch, child);
  }

  class Trie {
    const root: TrieNode
    /** The node at the end of every path, and the keys registered so far. */
    ghost var nodes: map<string, TrieNode>
    ghost var table: map<string, Command>

    ghost function Links(): (r: map<TrieNode, map<char, TrieNode>>)
      reads `nodes, nodes.Values
    {
      map n | n in nodes.Values :: n.childs
    }

    ghost predicate Tree()
      reads `nodes, nodes.Values
    {
      IsTree(root, nodes, Links())
    }

    /** The nodes with a service are the keys in the table. */
    ghost predicate Valid()
      reads `nodes, `table, nodes.Values
    {
      && Tree()
      && (forall p | p in table :: p in nodes)
      && (forall p | p in nodes :: p in table <==> nodes[p].service.Some?)
      && (forall p | p in table :: table[p] == Command(nodes[p].service.value, nodes[p].commandSize))
    }

    constructor ()
      ensures Valid() && table == map[] && fresh(root) && nodes == map["" := root]
    {
      root := new TrieNode();
      new;
      nodes, table := map["" := root], map[];
    }

    /** Adds the child for one more character. */
    method AddChild(ghost path: string, node: TrieNode, ch: char)
      requires Tree() && path in nodes && nodes[path] == node && ch !in node.childs
      modifies this`nodes, node`childs
      ensures Tree() && path + [ch] !in old(nodes) && path + [ch] in nodes
      ensures nodes == old(nodes)[path + [ch] := nodes[path + [ch]]] && fresh(nodes[path + [ch]])
      ensures nodes[path + [ch]].service == None
    {
      hide IsTree;
      var child := new TrieNode();
      ghost var longer := path + [ch];
      PathNode(root, nodes, Links(), path);
      ValuesGrow(nodes, longer, child);
      TreeGrows(root, nodes, Links(), path, ch, child);
      ghost var links := Links()[node := node.childs[ch := child]][child := map[]];
      node.childs := node.childs[ch := child];
      nodes := nodes[longer := child];
      assert Links() == links;
    }

    /** One step along the path of a key, with a new node where there is
        none. */
    method Descend(ghost path: string, node: TrieNode, ch: char) returns (child: TrieNode)
      requires Valid() && path in nodes && nodes[path] == node
      modifies this`nodes, node`childs
      ensures Valid() && path + [ch] in nodes && nodes[path + [ch]] == child
      ensures forall n | n in nodes.Values :: n in old(nodes.Values) || fresh(n)
    {
      hide IsTree;
      if ch !in node.childs {
        AddChild(path, node, ch);
      }
      ChildIs(root, nodes, Links(), path, ch);
      child := node.childs[ch];
    }

    /** Gives the node at the end of a path its service. */
    method Occupy(ghost path: string, node: TrieNode, service: Service, commandSize: nat)
      requires Valid() && path in nodes && nodes[path] == node && node.service == None
      modifies this`table, node`service, node`commandSize
      ensures Valid() && nodes == old(nodes) && table == old(table)[path := Command(service, commandSize)]
    {
      hide IsTree;
      ghost var links := Links();
      PathNode(root, nodes, links, path);
      node.service := Some(service);
      node.commandSize := commandSize;
      table := table[path := Command(service, commandSize)];
      assert Links() == links;
      forall p | p in nodes && p != path
        ensures nodes[p] != node && nodes[p].service == old(nodes[p].service)
          && nodes[p].commandSize == old(nodes[p].commandSize)
      {
      }
    }

    /** `InsertImpl`: `chars` are the characters of the key in the order they
        are walked. A key that is taken stays with its service. */
    method InsertImpl(chars: string, fromBack: bool, service: Service) returns (added: bool)
      requires Valid()
      modifies this, nodes.Values
      ensures Valid() && added == (Lower(chars) !in old(table))
      ensures table
        == if added then old(table)[Lower(chars) := Command(service, SizeOf(|chars|, fromBack))] else old(table)
      ensures forall n | n in nodes.Values :: n in old(nodes.Values) || fresh(n)
    {
      hide IsTree, Lower, SizeOf;
      var curNode := root;
      ghost var path := Lower(chars);
      var i := 0;
      RootIs(root, nodes, Links());
      assert path[..0] == "";
      while i < |chars|
        invariant Valid() && 0 <= i <= |chars| && path[..i] in nodes && nodes[path[..i]] == curNode
        invariant table == old(table)
        invariant forall n | n in nodes.Values :: n in old(nodes.Values) || fresh(n)
      {
        LowerAt(chars, i);
        assert path[..i + 1] == path[..i] + [LowerChar(chars[i])];
        PathNode(root, nodes, Links(), path[..i]);
        curNode := Descend(path[..i], curNode, LowerChar(chars[i]));
        i := i + 1;
      }
      LowerLength(chars);
      assert path[..i] == path;
      if curNode.service.Some? {
        return false;
      }
      PathNode(root, nodes, Links(), path);
      Occupy(path, curNode, service, if fromBack then (SIZE_LIMIT - |chars| % SIZE_LIMIT) % SIZE_LIMIT else |chars|);
      assert SizeOf(|chars|, fromBack)
          == (if fromBack then (SIZE_LIMIT - |chars| % SIZE_LIMIT) % SIZE_LIMIT else |chars|) by {
        SizeIs(|chars|, fromBack);
      }
      added := true;
    }

    method Insert(key: string, service: Service) returns (added: bool)
      requires Valid()
      modifies this, nodes.Values
      ensures Valid() && table == Register(old(table), Registration(key, service), false)
      ensures added == (Walked(key, false) !in old(table))
      ensures forall n | n in nodes.Values :: n in old(nodes.Values) || fresh(n)
    {
      hide IsTree, Lower, SizeOf;
      added := InsertImpl(key, false, service);
    }

    method InsertFromBack(key: string, service: Service) returns (added: bool)
      requires Valid()
      modifies this, nodes.Values
      ensures Valid() && table == Register(old(table), Registration(key, service), true)
      ensures added == (Walked(key, true) !in old(table))
      ensures forall n | n in nodes.Values :: n in old(nodes.Values) || fresh(n)
    {
      hide IsTree, Lower, SizeOf;
      added := InsertImpl(Reversed(key), true, service);
    }

    /** Registering a list of commands. */
    method RegisterCommands(rs: seq<Registration>, fromBack: bool)
      requires Valid() && table == map[]
      modifies this, nodes.Values
      ensures Valid() && table == RegisterAll(rs, fromBack)
    {
      hide IsTree, Lower, SizeOf, Walked;
      for i := 0 to |rs|
        invariant Valid() && table == RegisterAll(rs[..i], fromBack)
        invariant forall n | n in nodes.Values :: n in old(nodes.Values) || fresh(n)
      {
        assert rs[..i + 1][..i] == rs[..i];
        if fromBack {
          var _ := InsertFromBack(rs[i].key, rs[i].service);
        } else {
          var _ := Insert(rs[i].key, rs[i].service);
        }
      }
      assert rs[..|rs|] == rs;
    }

    /** `LongestSearchImpl`: the event gets the size of the key that is found,
        and keeps what it has if there is none. */
    method LongestSearch(chars: string, event: Event) returns (service: Option<Service>)
      requires Valid()
      modifies event
      ensures var r := Longest(table, Lower(chars), |chars|);
        && service == (if r.Some? then Some(r.value.service) else None)
        && event.commandSize == (if r.Some? then Some(r.value.size) else old(event.commandSize))
    {
      hide IsTree, Lower;
      var curNode := root;
      var pre: TrieNode? := null;
      ghost var t := Lower(chars);
      LowerLength(chars);
      var i := 0;
      RootIs(root, nodes, Links());
      assert t[..0] == "";
      while i < |chars|
        invariant 0 <= i <= |chars| && t[..i] in nodes && nodes[t[..i]] == curNode
        invariant pre != null ==> pre.service.Some?
        invariant event.commandSize == old(event.commandSize)
        invariant Longest(table, t, i)
          == if pre == null then None else Some(Command(pre.service.value, pre.commandSize))
      {
        LowerAt(chars, i);
        var ch := LowerChar(chars[i]);
        assert t[..i + 1] == t[..i] + [ch];
        ChildIs(root, nodes, Links(), t[..i], ch);
        if ch !in curNode.childs {
          NoLonger(root, nodes, Links(), table, t, i, |t|);
          break;
        }
        curNode := curNode.childs[ch];
        if curNode.service.Some? {
          pre := curNode;
        }
        i := i + 1;
      }
      if pre != null {
        event.commandSize := Some(pre.commandSize);
        return pre.service;
      }
      return None;
    }

    /** `ShortestSearchImpl`. */
    method ShortestSearch(chars: string, event: Event) returns (service: Option<Service>)
      requires Valid()
      modifies event
      ensures var r := Shortest(table, Lower(chars), 0);
        && service == (if r.Some? then Some(r.value.service) else None)
        && event.commandSize == (if r.Some? then Some(r.value.size) else old(event.commandSize))
    {
      hide IsTree, Lower;
      var curNode := root;
      ghost var t := Lower(chars);
      LowerLength(chars);
      var i := 0;
      RootIs(root, nodes, Links());
      assert t[..0] == "";
      while i < |chars|
        invariant 0 <= i <= |chars| && t[..i] in nodes && nodes[t[..i]] == curNode
        invariant Shortest(table, t, 0) == Shortest(table, t, i) && event.commandSize == old(event.commandSize)
      {
        LowerAt(chars, i);
        var ch := LowerChar(chars[i]);
        assert t[..i + 1] == t[..i] + [ch];
        ChildIs(root, nodes, Links(), t[..i], ch);
        if ch !in curNode.childs {
          NoneShorter(root, nodes, Links(), table, t, i, i);
          return None;
        }
        curNode := curNode.childs[ch];
        if curNode.service.Some? {
          event.commandSize := Some(curNode.commandSize);
          return curNode.service;
        }
        i := i + 1;
      }
      return None;
    }

    method LongestPrefix(key: string, event: Event) returns (service: Option<Service>)
      requires Valid()
      modifies event
      ensures var r := Longest(table, Walked(key, false), |key|);
        && service == (if r.Some? then Some(r.value.service) else None)
        && event.commandSize == (if r.Some? then Some(r.value.size) else old(event.commandSize))
    {
      service := LongestSearch(key, event);
    }

    method LongestSuffix(key: string, event: Event) returns (service: Option<Service>)
      requires Valid()
      modifies event
      ensures var r := Longest(table, Walked(key, true), |key|);
        && service == (if r.Some? then Some(r.value.service) else None)
        && event.commandSize == (if r.Some? then Some(r.value.size) else old(event.commandSize))
    {
      service := LongestSearch(Reversed(key), event);
    }
  }

  lemma SizeIs(n: nat, fromBack: bool)
    ensures SizeOf(n, fromBack) == if fromBack then (SIZE_LIMIT - n % SIZE_LIMIT) % SIZE_LIMIT else n
  {
  }

  lemma LowerLength(s: string)
    ensures |Lower(s)| == |s|
  {
  }

  lemma LowerAt(s: string, i: nat)
    requires i < |s|
    ensures |Lower(s)| == |s| && Lower(s)[i] == LowerChar(s[i])
  {
  }

  lemma RootIs(root: TrieNode, nodes: map<string, TrieNode>, links: map<TrieNode, map<char, TrieNode>>)
    requires IsTree(root, nodes, links)
    ensures "" in nodes && nodes[""] == root
  {
  }

  /** Beyond a missing node there is no path. */
  lemma {:induction false} NoPath(root: TrieNode, nodes: map<string, TrieNode>,
                                  links: map<TrieNode, map<char, TrieNode>>,
                                  t: string, i: nat, l: nat)
    requires IsTree(root, nodes, links) && i < l <= |t| && t[..i + 1] !in nodes
    ensures t[..l] !in nodes
    decreases l
  {
    hide IsTree;
    if l > i + 1 {
      NoPath(root, nodes, links, t, i, l - 1);
      assert Front(t[..l]) == t[..l - 1];
      FrontIs(root, nodes, links, t[..l]);
    }
  }

  lemma FrontIs(root: TrieNode, nodes: map<string, TrieNode>, links: map<TrieNode, map<char, TrieNode>>, p: string)
    requires IsTree(root, nodes, links) && p != ""
    ensures p in nodes ==> Front(p) in nodes
  {
  }

  lemma {:induction false} NoLonger(root: TrieNode, nodes: map<string, TrieNode>,
                                    links: map<TrieNode, map<char, TrieNode>>,
                                    table: map<string, Command>, t: string, i: nat, n: nat)
    requires IsTree(root, nodes, links) && i <= n <= |t| && (i < |t| ==> t[..i + 1] !in nodes)
    requires forall p | p in table :: p in nodes
    ensures Longest(table, t, n) == Longest(table, t, i)
    decreases n
  {
    hide IsTree;
    if n > i {
      NoPath(root, nodes, links, t, i, n);
      NoLonger(root, nodes, links, table, t, i, n - 1);
    }
  }

  lemma {:induction false} NoneShorter(root: TrieNode, nodes: map<string, TrieNode>,
                                       links: map<TrieNode, map<char, TrieNode>>,
                                       table: map<string, Command>, t: string, i: nat, n: nat)
    requires IsTree(root, nodes, links) && i <= n <= |t| && i < |t| && t[..i + 1] !in nodes
    requires forall p | p in table :: p in nodes
    ensures Shortest(table, t, n) == None
    decreases |t| - n
  {
    hide IsTree;
    if n < |t| {
      NoPath(root, nodes, links, t, i, n + 1);
      NoneShorter(root, nodes, links, table, t, i, n + 1);
    }
  }

  /** `ExtraPlainText` on an event, for a command it can hold. */
  method ExtraPlainTextOf(event: Event) returns (text: string)
    requires ExtraPlainText(event.message, event.commandSize).Some?
    ensures ExtraPlainText(event.message, event.commandSize) == Some(text)
  {
    var view := Unescape(event.message);
    if event.commandSize.Some? {
      var commandSize := AsShort(event.commandSize.value);
      if commandSize == 0 {
        return view;
      }
      if commandSize > 0 {
        view := view[commandSize..];
      } else {
        view := view[..|view| - -commandSize];
      }
    }
    return view;
  }

  /** The two lookups the bot makes for a message. Each handler gets a copy of
      the event as it is then. */
  method MatchCommands(prefixes: Trie, suffixes: Trie, event: Event) returns (calls: seq<Call>)
    requires prefixes.Valid() && suffixes.Valid()
    modifies event
    ensures calls == CallOf(prefixes.table, event.message, false) + CallOf(suffixes.table, event.message, true)
  {
    hide *;
    var first := Match(prefixes, event, false);
    var second := Match(suffixes, event, true);
    return first + second;
  }

  method Match(trie: Trie, event: Event, fromBack: bool) returns (calls: seq<Call>)
    requires trie.Valid()
    modifies event
    ensures calls == CallOf(trie.table, event.message, fromBack)
  {
    hide *;
    CallIs(trie.table, event.message, fromBack);
    WalkedLength(event.message, fromBack);
    var service;
    if fromBack {
      service := trie.LongestSuffix(event.message, event);
    } else {
      service := trie.LongestPrefix(event.message, event);
    }
    return if service.Some? then [Call(service.value, event.message, event.commandSize)] else [];
  }
}
