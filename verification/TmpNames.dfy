/** File names of the replacement protocol: which captures are listed and which temp name each one uses. */
module TmpNames {
  import opened Bytes

  const PCAP_SUFFIX: string := ".pcap"
  const TMP_SUFFIX: string := ".pcap.tmp"

  predicate EndsWith(name: string, suffix: string) {
    |suffix| <= |name| && name[|name| - |suffix|..] == suffix
  }

  /** The index of the last dot. */
  function LastDot(name: string): (i: Option<nat>)
    ensures i == None ==> '.' !in name
    ensures i.Some? ==> i.value < |name| && name[i.value] == '.' && '.' !in name[i.value + 1..]
  {
    if name == "" then None
    else if name[|name| - 1] == '.' then Some(|name| - 1)
    else
      assert name == name[..|name| - 1] + [name[|name| - 1]];
      var i := LastDot(name[..|name| - 1]);
      assert i.Some? ==> name[i.value + 1..] == name[..|name| - 1][i.value + 1..] + [name[|name| - 1]];
      i
  }

  /** The name without its extension; a leading dot starts no extension. */
  function FileStem(name: string): string {
    match LastDot(name)
    case None => name
    case Some(i) => if i == 0 then name else name[..i]
  }

  /** `with_extension("pcap.tmp")` */
  function TmpName(name: string): string {
    FileStem(name) + TMP_SUFFIX
  }

  /** The names a directory run picks up. */
  predicate Listed(name: string) {
    EndsWith(name, PCAP_SUFFIX) && !EndsWith(name, TMP_SUFFIX)
  }

  /** Every name that ends in .pcap is listed; none of them ends in .pcap.tmp. */
  lemma ListedExactly(name: string)
    ensures Listed(name) <==> 5 <= |name| && name[|name| - 5..] == ".pcap"
  {
    if 5 <= |name| && name[|name| - 5..] == ".pcap" {
      assert name[|name| - 2] == name[|name| - 5..][3] == 'a';
      assert 9 <= |name| ==> name[|name| - 9..][7] == name[|name| - 2];
    }
  }

  /** The extension, if there is one, gives way to `pcap.tmp`; a leading dot starts none. */
  lemma TmpNameExactly(stem: string, ext: string)
    requires '.' !in ext
    ensures stem != "" ==> TmpName(stem + "." + ext) == stem + ".pcap.tmp"
    ensures TmpName("." + ext) == "." + ext + ".pcap.tmp"
    ensures TmpName(ext) == ext + ".pcap.tmp"
  {
    var name := stem + "." + ext;
    assert name[|stem| + 1..] == ext;
    LastDotIs(name, |stem|);
    assert name[..|stem|] == stem;
    assert ("." + ext)[1..] == ext;
    LastDotIs("." + ext, 0);
    assert LastDot(ext) == None;
  }

  lemma LastDotIs(name: string, i: nat)
    requires i < |name| && name[i] == '.' && '.' !in name[i + 1..]
    ensures LastDot(name) == Some(i)
  {
    assert name[i] in name;
    forall k | i < k < |name|
      ensures name[k] != '.'
    {
      assert name[k] == name[i + 1..][k - i - 1];
    }
  }

  /** The stem of a listed name is what stands before its suffix, except for the bare suffix itself. */
  lemma ListedStem(name: string)
    requires Listed(name)
    ensures 5 <= |name|
    ensures FileStem(name) == if name == PCAP_SUFFIX then name else name[..|name| - 5]
  {
    var i := |name| - 5;
    assert name[i..] == PCAP_SUFFIX;
    assert name[i] == name[i..][0];
    assert name[i + 1..] == name[i..][1..] == "pcap";
    LastDotIs(name, i);
    if i == 0 {
      assert name[0..] == name;
    }
  }

  /** A temp file is never listed as a capture and is never the file it is made from. */
  lemma TmpNameApart(name: string)
    ensures EndsWith(TmpName(name), TMP_SUFFIX) && !Listed(TmpName(name))
    ensures TmpName(name) != name
  {
    var stem, tmp := FileStem(name), TmpName(name);
    assert tmp[|tmp| - 9..] == TMP_SUFFIX;
    assert tmp[|tmp| - 4] == '.' && tmp[|stem|] == '.';
  }

  /** Two listed captures share a temp file exactly when they are `.pcap` and `.pcap.pcap`. */
  lemma TmpNamesCollideExactly(a: string, b: string)
    requires Listed(a) && Listed(b) && a != b
    ensures TmpName(a) == TmpName(b) <==>
              (a == ".pcap" && b == ".pcap.pcap") || (a == ".pcap.pcap" && b == ".pcap")
  {
    hide FileStem, Listed;
    ListedStem(a);
    ListedStem(b);
    StemOfTmp(a);
    StemOfTmp(b);
    hide TmpName;
    SplitListed(a);
    SplitListed(b);
    assert ".pcap" + ".pcap" == ".pcap.pcap";
    assert ".pcap.pcap"[..5] == ".pcap";
  }

  lemma StemOfTmp(name: string)
    ensures |TmpName(name)| >= 9 && TmpName(name)[..|TmpName(name)| - 9] == FileStem(name)
    ensures TmpName(name) == FileStem(name) + TMP_SUFFIX
  {
  }

  lemma SplitListed(name: string)
    requires Listed(name)
    ensures EndsWith(name, PCAP_SUFFIX) && name == name[..|name| - 5] + PCAP_SUFFIX
  {
  }
}
