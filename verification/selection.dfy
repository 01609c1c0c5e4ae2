/** File selection in `create_gif`: a directory entry becomes a frame source
    when its lower-cased name ends with `.png`, `.jpg` or `.jpeg`. */
module Selection {
  import opened Wrappers

  /** Python's `str.lower()` on one character. Only the ASCII letters are
      mapped; every other character is its own lower case here. */
  function LowerChar(c: char): char
  {
    if 'A' <= c <= 'Z' then (c as int + 32) as char else c
  }

  function Lower(s: string): (r: string)
    ensures |r| == |s|
    ensures forall i :: 0 <= i < |s| ==> r[i] == LowerChar(s[i])
  {
    seq(|s|, i requires 0 <= i < |s| => LowerChar(s[i]))
  }

  /** Python's `s.endswith(suffix)`. */
  predicate EndsWith(s: string, suffix: string)
  {
    |suffix| <= |s| && s[|s| - |suffix|..] == suffix
  }

  /** The test of the list comprehension that filters the directory listing:
      `f.lower().endswith(('.png', '.jpg', '.jpeg'))`. */
  predicate IsImageName(name: string)
  {
    var lower := Lower(name);
    EndsWith(lower, ".png") || EndsWith(lower, ".jpg") || EndsWith(lower, ".jpeg")
  }

  /** The directory entries that become frames, in listing order. */
  function Select(names: seq<string>): (images: seq<string>)
    ensures forall n :: multiset(images)[n] == if IsImageName(n) then multiset(names)[n] else 0
    ensures forall n :: n in images <==> n in names && IsImageName(n)
  {
    if names == [] then []
    else
      var rest := Select(names[1..]);
      assert names == [names[0]] + names[1..];
      if IsImageName(names[0]) then [names[0]] + rest else rest
  }

  /** Selection keeps the listing order: filtering a concatenation is the
      concatenation of the filtered parts. */
  lemma {:induction false} SelectAppend(a: seq<string>, b: seq<string>)
    ensures Select(a + b) == Select(a) + Select(b)
  {
    if a == [] {
      assert a + b == b;
    } else {
      assert a + b == [a[0]] + (a[1..] + b);
      SelectAppend(a[1..], b);
    }
  }

  /** `if not images: return` fires exactly when no entry has an image
      extension. */
  lemma NothingSelected(names: seq<string>)
    ensures Select(names) == [] <==> forall n :: n in names ==> !IsImageName(n)
  {
    if Select(names) != [] {
      assert Select(names)[0] in Select(names);
    }
  }

  /** The text after the last '.' of a name, or `None` when the name has no '.'. */
  function Extension(name: string): Option<string>
  {
    if name == [] then None
    else if name[|name| - 1] == '.' then Some([])
    else match Extension(name[..|name| - 1])
      case None => None
      case Some(e) => Some(e + [name[|name| - 1]])
  }

  lemma {:induction false} ExtensionShape(name: string)
    ensures Extension(name).None? ==> forall i :: 0 <= i < |name| ==> name[i] != '.'
    ensures Extension(name).Some? ==>
      var e := Extension(name).value;
      && |e| < |name|
      && name[|name| - |e| - 1] == '.'
      && name[|name| - |e|..] == e
      && forall i :: 0 <= i < |e| ==> e[i] != '.'
  {
    if name != [] && name[|name| - 1] != '.' {
      var init := name[..|name| - 1];
      ExtensionShape(init);
      if Extension(init).Some? {
        var e := Extension(init).value;
        assert name[|name| - |e| - 1..] == init[|init| - |e|..] + [name[|name| - 1]];
      } else {
        forall i | 0 <= i < |name| ensures name[i] != '.' {
          if i < |init| { assert name[i] == init[i]; }
        }
      }
    }
  }

  lemma {:induction false} ExtensionAfterLastDot(name: string, p: nat)
    requires p < |name| && name[p] == '.'
    requires forall i :: p < i < |name| ==> name[i] != '.'
    ensures Extension(name) == Some(name[p + 1..])
    decreases |name| - p
  {
    if p < |name| - 1 {
      var init := name[..|name| - 1];
      ExtensionAfterLastDot(init, p);
      assert name[p + 1..] == init[p + 1..] + [name[|name| - 1]];
    }
  }

  lemma LowerAppend(a: string, b: string)
    ensures Lower(a + b) == Lower(a) + Lower(b)
  {
  }

  lemma LowerSuffix(s: string, k: nat)
    requires k <= |s|
    ensures Lower(s)[k..] == Lower(s[k..])
  {
  }

  lemma LowerCharDot(c: char)
    ensures LowerChar(c) == '.' <==> c == '.'
  {
  }

  lemma SuffixGivesExtension(name: string, ext: string)
    requires EndsWith(Lower(name), "." + ext)
    requires forall i :: 0 <= i < |ext| ==> ext[i] != '.'
    ensures Extension(name).Some? && Lower(Extension(name).value) == ext
  {
    var lower := Lower(name);
    var p := |name| - |ext| - 1;
    assert lower[p..] == "." + ext;
    assert lower[p] == '.';
    LowerCharDot(name[p]);
    forall i | p < i < |name| ensures name[i] != '.' {
      assert lower[i] == ext[i - p - 1];
      LowerCharDot(name[i]);
    }
    ExtensionAfterLastDot(name, p);
    LowerSuffix(name, p + 1);
    assert lower[p + 1..] == ext;
  }

  lemma ExtensionGivesSuffix(name: string)
    requires Extension(name).Some?
    ensures EndsWith(Lower(name), "." + Lower(Extension(name).value))
  {
    ExtensionShape(name);
    var e := Extension(name).value;
    var p := |name| - |e| - 1;
    assert name[p..] == "." + e;
    LowerAppend(".", e);
    assert Lower(".") == ".";
    LowerSuffix(name, p);
    assert Lower(name)[p..] == "." + Lower(e);
    assert |"." + Lower(e)| == |name| - p;
  }

  predicate IsImageExtension(ext: string)
  {
    ext == "png" || ext == "jpg" || ext == "jpeg"
  }

  lemma DottedLiterals()
    ensures ".png" == "." + "png" && ".jpg" == "." + "jpg" && ".jpeg" == "." + "jpeg"
  {
  }

  lemma ImageNameHasExtension(name: string)
    requires IsImageName(name)
    ensures Extension(name).Some? && IsImageExtension(Lower(Extension(name).value))
  {
    var lower := Lower(name);
    DottedLiterals();
    if EndsWith(lower, ".png") {
      SuffixGivesExtension(name, "png");
    } else if EndsWith(lower, ".jpg") {
      SuffixGivesExtension(name, "jpg");
    } else {
      SuffixGivesExtension(name, "jpeg");
    }
  }

  lemma ExtensionMakesImageName(name: string)
    requires Extension(name).Some? && IsImageExtension(Lower(Extension(name).value))
    ensures IsImageName(name)
  {
    ExtensionGivesSuffix(name);
    DottedLiterals();
  }

  /** The suffix test agrees with the usual reading "the extension after the
      last dot is png, jpg or jpeg, in any letter case". */
  lemma ImageNameIsExtension(name: string)
    ensures IsImageName(name) <==>
      Extension(name).Some? && IsImageExtension(Lower(Extension(name).value))
  {
    if IsImageName(name) {
      ImageNameHasExtension(name);
    } else if Extension(name).Some? && IsImageExtension(Lower(Extension(name).value)) {
      ExtensionMakesImageName(name);
    }
  }

  /** Image suffixes are recognised in any letter case. */
  lemma KeptExamples()
    ensures IsImageName("p1.JPG") && IsImageName("p2.Jpeg")
  {
    assert Lower("p1.JPG") == "p1.jpg";
    assert Lower("p2.Jpeg") == "p2.jpeg";
  }

  /** Other extensions, and image suffixes that are not at the end, are not. */
  lemma DroppedExamples()
    ensures !IsImageName("p3.txt") && !IsImageName("p4.png.bak")
  {
    assert Lower("p3.txt") == "p3.txt";
    assert Lower("p4.png.bak") == "p4.png.bak";
  }
}
