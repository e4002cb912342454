/** `PsdUtility`: the file name an extracted layer image is written to. */
module PsdUtility {
  import opened Strings

  const PngExtension: string := ".png"

  /**
    `imageNameFromLayerName`: the layer name cut at its first ':' (a name
    such as "button:hover" shares the image of "button"), plus ".png".
   */
  function ImageNameFromLayerName(layerName: string): (r: string)
    ensures EndsWith(r, PngExtension)
    ensures var stem := r[..|r| - |PngExtension|];
      && StartsWith(layerName, stem)
      && ':' !in stem
      && (|stem| == |layerName| || layerName[|stem|] == ':')
  {
    var groupIndex := IndexOf(layerName, ':');
    var stem := if groupIndex != -1 then layerName[..groupIndex] else layerName;
    assert (stem + PngExtension)[..|stem|] == stem;
    stem + PngExtension
  }

  /** Without a ':' the whole name is kept. */
  lemma NameWithoutColon(layerName: string)
    requires ':' !in layerName
    ensures ImageNameFromLayerName(layerName) == layerName + PngExtension
  {
  }

  /** With a ':' at index k (the first one), the name is cut there. */
  lemma NameCutAtFirstColon(layerName: string, k: nat)
    requires k < |layerName| && layerName[k] == ':' && ':' !in layerName[..k]
    ensures ImageNameFromLayerName(layerName) == layerName[..k] + PngExtension
  {
  }

  /** Layers whose names agree up to their first ':' share one image file. */
  lemma SameStemSameFile(a: string, b: string, k: nat)
    requires k <= |a| && k <= |b| && a[..k] == b[..k] && ':' !in a[..k]
    requires (k == |a| || a[k] == ':') && (k == |b| || b[k] == ':')
    ensures ImageNameFromLayerName(a) == ImageNameFromLayerName(b)
  {
    if k == |a| {
      assert a[..k] == a;
      NameWithoutColon(a);
    } else {
      NameCutAtFirstColon(a, k);
    }
    if k == |b| {
      assert b[..k] == b;
      NameWithoutColon(b);
    } else {
      NameCutAtFirstColon(b, k);
    }
  }
}
