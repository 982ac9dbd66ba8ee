/** File contents, paths, and the order sort.Strings puts paths in. */
module Order {
  type Byte = b: int | 0 <= b < 256
  type Bytes = seq<Byte>
  type Path = string

  datatype Option<+T> = None | Some(value: T)

  lemma Associates<T>(a: seq<T>, b: seq<T>, c: seq<T>)
    ensures (a + b) + c == a + (b + c)
  {
  }

  /** Go compares strings element by element; a proper prefix comes first. */
  predicate Before(a: Path, b: Path) {
    b != [] && (a == [] || a[0] < b[0] || (a[0] == b[0] && Before(a[1..], b[1..])))
  }

  /** a comes before b: at the first place they differ, or by being a proper prefix. */
  lemma {:induction false} BeforeIff(a: Path, b: Path)
    ensures Before(a, b) <==> exists k: nat :: DiffersAt(a, b, k) && (k == |a| || a[k] < b[k])
  {
    if a != [] && b != [] {
      BeforeIff(a[1..], b[1..]);
      if a[0] == b[0] {
        forall k: nat ensures DiffersAt(a[1..], b[1..], k) <==> DiffersAt(a, b, k + 1) {
          assert k + 1 <= |a| && k + 1 < |b| ==>
                   (a[1..][..k] == b[1..][..k] <==> a[..k + 1] == b[..k + 1]) by {
            if k + 1 <= |a| && k + 1 < |b| {
              assert a[..k + 1] == [a[0]] + a[1..][..k] && b[..k + 1] == [b[0]] + b[1..][..k];
            }
          }
        }
        assert !DiffersAt(a, b, 0) || a[0] >= b[0];
      } else {
        assert DiffersAt(a, b, 0);
        assert forall k: nat :: DiffersAt(a, b, k) && k > 0 ==> a[..k][0] == b[..k][0];
      }
    } else if b != [] {
      assert DiffersAt(a, b, 0);
    }
  }

  /** They agree up to k, where b goes on. */
  predicate DiffersAt(a: Path, b: Path, k: nat) {
    k <= |a| && k < |b| && a[..k] == b[..k] && (k < |a| ==> a[k] != b[k])
  }

  lemma {:induction false} BeforeIsStrict(a: Path, b: Path)
    ensures a == b ==> !Before(a, b)
    ensures a != b ==> Before(a, b) != Before(b, a)
  {
    if a != [] && b != [] {
      BeforeIsStrict(a[1..], b[1..]);
      assert a == [a[0]] + a[1..] && b == [b[0]] + b[1..];
    }
  }

  lemma {:induction false} BeforeIsTransitive(a: Path, b: Path, c: Path)
    requires Before(a, b) && Before(b, c)
    ensures Before(a, c)
  {
    if a != [] && a[0] == b[0] && b[0] == c[0] {
      BeforeIsTransitive(a[1..], b[1..], c[1..]);
    }
  }

  /** Strictly ascending: sorted, and no path twice. */
  ghost predicate Ascending(s: seq<Path>) {
    forall i, j :: 0 <= i < j < |s| ==> Before(s[i], s[j])
  }

  /** A strictly ascending list is determined by the set of its paths. */
  lemma {:induction false} AscendingIsUnique(s: seq<Path>, t: seq<Path>)
    requires Ascending(s) && Ascending(t)
    requires forall p :: p in s <==> p in t
    ensures s == t
  {
    assert s == [] || s[0] in t;
    assert t == [] || t[0] in s;
    if s != [] && t != [] {
      BeforeIsStrict(s[0], t[0]);
      forall i | 0 <= i < |s| ensures !Before(s[i], s[0]) { BeforeIsStrict(s[0], s[i]); }
      forall i | 0 <= i < |t| ensures !Before(t[i], t[0]) { BeforeIsStrict(t[0], t[i]); }
      assert s[0] == t[0];
      forall p ensures p in s[1..] <==> p in t[1..] {
        BeforeIsStrict(s[0], s[0]);
        assert p in s[1..] <==> p in s && p != s[0];
        assert p in t[1..] <==> p in t && p != t[0];
      }
      AscendingIsUnique(s[1..], t[1..]);
      assert s == [s[0]] + s[1..] && t == [t[0]] + t[1..];
    }
  }

  /** Where p belongs in an ascending list; a list that has p is left alone. */
  function Insert(p: Path, s: seq<Path>): (r: seq<Path>)
    requires Ascending(s)
    ensures Ascending(r)
    ensures forall q :: q in r <==> q == p || q in s
  {
    if s == [] then [p]
    else if p == s[0] then s
    else if Before(p, s[0]) then
      assert forall i :: 0 <= i < |s| ==> Before(p, s[i]) by {
        forall i | 0 < i < |s| ensures Before(p, s[i]) { BeforeIsTransitive(p, s[0], s[i]); }
      }
      [p] + s
    else
      BeforeIsStrict(p, s[0]);
      assert s == [s[0]] + s[1..];
      var rest := Insert(p, s[1..]);
      assert forall i :: 0 <= i < |rest| ==> Before(s[0], rest[i]) by {
        forall i | 0 <= i < |rest| ensures Before(s[0], rest[i]) { assert rest[i] in rest; }
      }
      [s[0]] + rest
  }

  /** The paths of a list, each once, in ascending order: a dedupe and a sort. */
  function SortedDistinct(s: seq<Path>): (r: seq<Path>)
    ensures Ascending(r)
    ensures forall p :: p in r <==> p in s
  {
    if s == [] then [] else
      assert s == [s[0]] + s[1..];
      Insert(s[0], SortedDistinct(s[1..]))
  }
}
