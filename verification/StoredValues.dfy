/** The values held by a set of live handles, as a multiset. */
module StoredValues {
  import opened HandleBlocks
  import opened HandleStores

  ghost function ValuesIn(c: map<Handle, Content>): multiset<JSTaggedType> {
    if c == map[] then multiset{}
    else
      var h :| h in c;
      multiset{c[h].value} + ValuesIn(c - {h})
  }

  lemma NoValues()
    ensures ValuesIn(map[]) == multiset{}
  {
  }

  lemma First(c: map<Handle, Content>) returns (h: Handle)
    requires c != map[]
    ensures h in c && ValuesIn(c) == multiset{c[h].value} + ValuesIn(c - {h})
  {
    h :| h in c && ValuesIn(c) == multiset{c[h].value} + ValuesIn(c - {h});
  }

  /** Any handle can be taken out first. */
  lemma {:induction false} TakeOut(c: map<Handle, Content>, h: Handle)
    requires h in c
    ensures ValuesIn(c) == multiset{c[h].value} + ValuesIn(c - {h})
    decreases |c|
  {
    hide ValuesIn;
    var g := First(c);
    if g != h {
      TakeOut(c - {g}, h);
      TakeOut(c - {h}, g);
      assert c - {g} - {h} == c - {h} - {g};
      Swap(multiset{c[g].value}, multiset{c[h].value}, ValuesIn(c - {g} - {h}));
    }
  }

  lemma Swap<T>(a: multiset<T>, b: multiset<T>, c: multiset<T>)
    ensures a + (b + c) == b + (a + c)
    ensures a + (b + c) == (a + b) + c
  {
  }

  /** Putting in a handle that is not there. */
  lemma PutIn(c: map<Handle, Content>, h: Handle, content: Content)
    requires h !in c
    ensures ValuesIn(c[h := content]) == multiset{content.value} + ValuesIn(c)
  {
    TakeOut(c[h := content], h);
    assert c[h := content] - {h} == c;
  }

  /** A value that is taken out of one of two maps and put into the second conserves what both hold together. */
  lemma Moved(c: map<Handle, Content>, d: map<Handle, Content>, h: Handle, r: Handle, content: Content)
    requires (h in c || h in d) && !(h in c && h in d) && r !in d - {h}
    requires content.value == if h in c then c[h].value else d[h].value
    ensures ValuesIn(c - {h}) + ValuesIn((d - {h})[r := content]) == ValuesIn(c) + ValuesIn(d)
    ensures ValuesIn((d - {h})[r := content]) + ValuesIn(c - {h}) == ValuesIn(d) + ValuesIn(c)
  {
    hide ValuesIn;
    var v := multiset{content.value};
    PutIn(d - {h}, r, content);
    if h in c {
      TakeOut(c, h);
      assert d - {h} == d;
      Swap(ValuesIn(c - {h}), v, ValuesIn(d));
      Swap(v, ValuesIn(c - {h}), ValuesIn(d));
    } else {
      TakeOut(d, h);
      assert c - {h} == c;
    }
  }
}
