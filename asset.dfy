/** The Asset model: its `available` scope and its code generator. */
module AssetModel {
  import opened Schema
  import opened Sequences
  import Codes

  const AssetPrefix: string := "AST"

  predicate IsAvailable(a: Asset)
  {
    a.status == Available
  }

  /** `scopeAvailable`: `where('status', 'available')`. */
  function ScopeAvailable(assets: seq<Asset>): (r: seq<Asset>)
    ensures forall a :: a in r <==> a in assets && a.status == Available
    ensures Subsequence(r, assets)
  {
    Filter(assets, IsAvailable)
  }

  function AssetId(a: Asset): nat
  {
    a.id
  }

  /** `generateAssetCode`: "AST" and the highest id + 1 (1 for an empty
      table), padded to six digits. */
  function GenerateAssetCode(assets: seq<Asset>): (code: string)
    ensures |code| >= 9 && code[..3] == "AST"
    ensures Codes.ParseCode(AssetPrefix, code) == Some(Codes.NextNumber(Ids(assets, AssetId)))
    ensures var n := Codes.NextNumber(Ids(assets, AssetId));
      && (n <= 999999 ==> |code| == 9)
      && (n > 999999 ==> |code| == 3 + |Codes.Decimal(n)|)
    ensures forall a :: a in assets ==> Codes.ParseCode(AssetPrefix, code).value > a.id
  {
    var n := Codes.NextNumber(Ids(assets, AssetId));
    Codes.CodeRoundTrip(AssetPrefix, n);
    Codes.CodeLength(AssetPrefix, n);
    assert forall a :: a in assets ==> a.id in Ids(assets, AssetId) by {
      forall a | a in assets ensures a.id in Ids(assets, AssetId) {
        var i :| 0 <= i < |assets| && assets[i] == a;
        assert Ids(assets, AssetId)[i] == a.id;
      }
    }
    Codes.Code(AssetPrefix, n)
  }

  /** The number in an asset's code is at most its own id, as it is for every
      code `generateAssetCode` hands out. */
  predicate AssetCodeAtMostId(a: Asset)
  {
    var n := Codes.ParseCode(AssetPrefix, a.assetCode);
    n.Some? && n.value <= a.id
  }

  /** When every stored code is at most its row's id, the next generated code
      is not yet taken. */
  lemma GeneratedAssetCodeFresh(assets: seq<Asset>)
    requires forall a :: a in assets ==> AssetCodeAtMostId(a)
    ensures forall a :: a in assets ==> a.assetCode != GenerateAssetCode(assets)
  {
    forall a | a in assets ensures a.assetCode != GenerateAssetCode(assets) {
      assert AssetCodeAtMostId(a);
    }
  }
}
