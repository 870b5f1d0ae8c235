/**
 * The template lexer of route.go: a URL template such as "/posts/{id}" is
 * trimmed of its outer slashes, lower-cased and cut at every slash; each
 * piece becomes a key, a `{name}` piece a dynamic key called `name`.
 * Prefix templates additionally mark their last key.
 */
module RouteKeys {
  import Strings

  /** One element of a template: its text, and whether it is a parameter, a prefix or the nul key. */
  datatype Key = Key(value: string, dynamic: bool, prefix: bool, nul: bool)

  /** A piece written `{name}`: it starts with `{` and ends with `}`. */
  predicate IsParamPiece(piece: string) {
    |piece| >= 2 && piece[0] == '{' && piece[|piece| - 1] == '}'
  }

  /** How a key is written in a template: `{value}` when dynamic, `value` otherwise. */
  function Render(k: Key): string {
    if k.dynamic then "{" + k.value + "}" else k.value
  }

  /** The key one template piece becomes inside keysFromString. */
  function KeyOf(piece: string): (k: Key)
    ensures !k.prefix && !k.nul
    ensures k.dynamic <==> IsParamPiece(piece)
  {
    if IsParamPiece(piece) then Key(piece[1..|piece| - 1], true, false, false)
    else Key(piece, false, false, false)
  }

  /** Writing the key of a piece back out gives the piece. */
  lemma RenderKeyOf(piece: string)
    ensures Render(KeyOf(piece)) == piece
  {
    if IsParamPiece(piece) {
      assert piece == [piece[0]] + piece[1..|piece| - 1] + [piece[|piece| - 1]];
    }
  }

  /**
   * Reading a written key gives the key back, for a plain key (neither
   * prefix nor nul) whose static text does not itself look like `{name}`.
   */
  lemma KeyOfRender(k: Key)
    requires !k.prefix && !k.nul
    requires !k.dynamic ==> !IsParamPiece(k.value)
    ensures KeyOf(Render(k)) == k
  {
    if k.dynamic {
      var p := Render(k);
      assert p[1..|p| - 1] == k.value;
    }
  }

  /** The pieces of a template: trimmed of outer slashes, lower-cased, cut at each slash. */
  function TemplatePieces(template: string): (pieces: seq<string>)
    ensures |pieces| >= 1
  {
    Strings.Split(Strings.ToLower(Strings.Trim(template, '/')), '/')
  }

  /** The keys keysFromString returns for `template`: one per piece. */
  function TemplateKeys(template: string): (keys: seq<Key>)
    ensures |keys| == |TemplatePieces(template)|
  {
    var pieces := TemplatePieces(template);
    seq(|pieces|, i requires 0 <= i < |pieces| => KeyOf(pieces[i]))
  }

  /** keysFromString: the loop that appends the key of every piece in turn. */
  method KeysFromString(template: string) returns (keys: seq<Key>)
    ensures keys == TemplateKeys(template)
  {
    var trimmed := Strings.Trim(template, '/');
    var lowered := Strings.ToLower(trimmed);
    var pieces := Strings.Split(lowered, '/');
    keys := [];
    for i := 0 to |pieces|
      invariant |keys| == i
      invariant forall j | 0 <= j < i :: keys[j] == KeyOf(pieces[j])
    {
      var piece := pieces[i];
      KeyOfBraces(piece);
      var k := Key(piece, false, false, false);
      if |piece| >= 1 && piece[0] == '{' && piece[|piece| - 1] == '}' {
        k := Key(piece[1..|piece| - 1], true, false, false);
      }
      assert k == KeyOf(piece);
      ghost var before := keys;
      keys := keys + [k];
      forall j | 0 <= j < i + 1 ensures keys[j] == KeyOf(pieces[j]) {
        if j < i {
          assert keys[j] == before[j];
        }
      }
    }
    KeysOfPieces(template, keys);
  }

  /** keysFromString's own test for a parameter piece agrees with KeyOf. */
  lemma KeyOfBraces(piece: string)
    ensures KeyOf(piece) ==
      if |piece| >= 1 && piece[0] == '{' && piece[|piece| - 1] == '}'
      then Key(piece[1..|piece| - 1], true, false, false)
      else Key(piece, false, false, false)
  {
  }

  /** A list holding the key of every piece, in order, is the template's keys. */
  lemma KeysOfPieces(template: string, keys: seq<Key>)
    requires |keys| == |TemplatePieces(template)|
    requires forall j | 0 <= j < |keys| :: keys[j] == KeyOf(TemplatePieces(template)[j])
    ensures keys == TemplateKeys(template)
  {
  }

  /**
   * There is at least one key; each key is the piece at its position, a
   * `{name}` piece giving the dynamic key `name`; writing the keys back out
   * and joining them with slashes gives the trimmed, lower-cased template.
   */
  lemma TemplateKeysRoundTrip(template: string)
    ensures var keys := TemplateKeys(template);
      && |keys| >= 1
      && Strings.Join(seq(|keys|, i requires 0 <= i < |keys| => Render(keys[i])), '/')
         == Strings.ToLower(Strings.Trim(template, '/'))
  {
    var pieces := TemplatePieces(template);
    var keys := TemplateKeys(template);
    var rendered := seq(|keys|, i requires 0 <= i < |keys| => Render(keys[i]));
    forall i | 0 <= i < |keys| ensures rendered[i] == pieces[i] {
      RenderKeyOf(pieces[i]);
    }
    assert rendered == pieces;
    Strings.JoinSplit(Strings.ToLower(Strings.Trim(template, '/')), '/');
  }

  /** No piece of a template holds a slash or an upper-case ASCII letter. */
  lemma TemplatePiecesAreLowerSlashFree(template: string, i: nat, k: nat)
    requires i < |TemplatePieces(template)| && k < |TemplatePieces(template)[i]|
    ensures TemplatePieces(template)[i][k] != '/'
    ensures !('A' <= TemplatePieces(template)[i][k] <= 'Z')
  {
    var lowered := Strings.ToLower(Strings.Trim(template, '/'));
    var c := TemplatePieces(template)[i][k];
    Strings.SplitChars(lowered, '/', i, k);
    var j :| 0 <= j < |lowered| && lowered[j] == c;
  }

  /** The template "/" is the single static key with the empty value. */
  lemma RootTemplate()
    ensures TemplateKeys("/") == [Key("", false, false, false)]
  {
    assert Strings.TrimLeft("/", '/') == "";
    assert Strings.Trim("/", '/') == "";
    assert Strings.ToLower("") == "";
    assert !('/' in "");
    assert TemplatePieces("/") == [""];
  }

  /** Trimming the slashes around a piece that neither starts nor ends with one gives the piece. */
  lemma TrimWrapped(p: string)
    requires |p| >= 1 && p[0] != '/' && p[|p| - 1] != '/'
    ensures Strings.Trim("/" + p + "/", '/') == p
  {
    TrimLeftWrapped(p);
    TrimRightSlash(p);
  }

  lemma TrimLeftWrapped(p: string)
    requires |p| >= 1 && p[0] != '/'
    ensures Strings.TrimLeft("/" + p + "/", '/') == p + "/"
  {
    var t := "/" + p + "/";
    var q := p + "/";
    assert t[1..] == q;
    assert q[0] == p[0];
    assert Strings.TrimLeft(q, '/') == q;
  }

  lemma TrimRightSlash(p: string)
    requires |p| >= 1 && p[|p| - 1] != '/'
    ensures Strings.TrimRight(p + "/", '/') == p
  {
    var q := p + "/";
    assert q[..|p|] == p;
    assert Strings.TrimRight(p, '/') == p;
  }

  /** A single slash-free, lower-case piece between two slashes is the only piece. */
  lemma WrappedPiece(p: string)
    requires |p| >= 1
    requires forall i | 0 <= i < |p| :: p[i] != '/' && !('A' <= p[i] <= 'Z')
    ensures TemplatePieces("/" + p + "/") == [p]
  {
    TrimWrapped(p);
    Strings.ToLowerIdentity(p);
    assert '/' !in p;
  }

  /** The piece `{name}` is the dynamic key `name`. */
  lemma BracedKey(name: string)
    ensures KeyOf("{" + name + "}") == Key(name, true, false, false)
  {
    var p := "{" + name + "}";
    assert IsParamPiece(p) && p[1..|p| - 1] == name;
  }

  /** Braces add neither a slash nor an upper-case letter. */
  lemma BracedChars(name: string)
    requires forall i | 0 <= i < |name| :: name[i] != '/' && !('A' <= name[i] <= 'Z')
    ensures var p := "{" + name + "}";
      forall i | 0 <= i < |p| :: p[i] != '/' && !('A' <= p[i] <= 'Z')
  {
    var p := "{" + name + "}";
    assert forall i | 1 <= i < |p| - 1 :: p[i] == name[i - 1];
  }

  /**
   * "/{name}/", for a name without slashes or upper-case letters, is the
   * single dynamic key `name` ("/{id}/" gives the key `id`).
   */
  lemma ParamTemplate(name: string)
    requires forall i | 0 <= i < |name| :: name[i] != '/' && !('A' <= name[i] <= 'Z')
    ensures TemplateKeys("/{" + name + "}/") == [Key(name, true, false, false)]
  {
    var p := "{" + name + "}";
    var t := "/{" + name + "}/";
    assert t == "/" + p + "/";
    BracedChars(name);
    WrappedPiece(p);
    BracedKey(name);
    KeysOfPieces(t, [Key(name, true, false, false)]);
  }

  /** Router.Prefix's marking: the last key becomes a prefix key. */
  function MarkPrefix(keys: seq<Key>): (r: seq<Key>)
    requires |keys| >= 1
    ensures |r| == |keys|
  {
    keys[|keys| - 1 := keys[|keys| - 1].(prefix := true)]
  }

  /**
   * In the keys of a prefix template, exactly the last key is a prefix key;
   * every key keeps its value and kind, and none is nul.
   */
  lemma PrefixKeys(template: string, i: nat)
    requires i < |TemplateKeys(template)|
    ensures var keys := TemplateKeys(template);
      var marked := MarkPrefix(keys);
      && (marked[i].prefix <==> i == |keys| - 1)
      && marked[i].value == keys[i].value
      && marked[i].dynamic == keys[i].dynamic
      && !marked[i].nul
  {
    var keys := TemplateKeys(template);
    assert keys[i] == KeyOf(TemplatePieces(template)[i]);
  }
}
