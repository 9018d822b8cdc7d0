/** Resolving a recipe image reference to a URL (src/utils/imageUtils.ts). The
    build-time environment value `VITE_API_BASE_URL` is passed in as a parameter. */
module ImageUrls {
  import opened Domain
  import opened Text

  /** The placeholder image URL, "https://via.placeholder.com/800x400?text=Нет+фото". */
  const Placeholder: string := "https://" + "via.placeholder.com/800x400?text=Нет+фото"
  const DefaultBaseUrl: string := "http://localhost:9090"

  /** The configured service address, or the local default when none is configured. */
  function BaseUrl(env: Option<string>): (r: string)
    ensures FalsyString(env) ==> r == DefaultBaseUrl
    ensures !FalsyString(env) ==> r == env.value
    ensures r != ""
  {
    if FalsyString(env) then DefaultBaseUrl else env.value
  }

  /** `getImageUrl(imagePath)`: the placeholder for a missing path, an
      "http…" path as it is, and any other path appended to the base URL. */
  function GetImageUrl(imagePath: Option<string>, env: Option<string>): (r: string)
    ensures FalsyString(imagePath) ==> r == Placeholder
    ensures !FalsyString(imagePath) && StartsWith(imagePath.value, "http") ==> r == imagePath.value
    ensures !FalsyString(imagePath) && StartsWith(imagePath.value, "https://") ==> r == imagePath.value
    ensures !FalsyString(imagePath) && !StartsWith(imagePath.value, "http") ==>
              StartsWith(r, BaseUrl(env)) && r[|BaseUrl(env)|..] == imagePath.value
    ensures r != ""
  {
    if FalsyString(imagePath) then Placeholder
    else if StartsWith(imagePath.value, "http") then imagePath.value
    else BaseUrl(env) + imagePath.value
  }

  /** Whenever the base URL is itself an "http…" URL, every resolved URL is
      one, so resolving a resolved URL again returns it unchanged. */
  lemma GetImageUrlIdempotent(imagePath: Option<string>, env: Option<string>)
    requires StartsWith(BaseUrl(env), "http")
    ensures StartsWith(GetImageUrl(imagePath, env), "http")
    ensures GetImageUrl(Some(GetImageUrl(imagePath, env)), env) == GetImageUrl(imagePath, env)
  {
    var r := GetImageUrl(imagePath, env);
    if FalsyString(imagePath) {
      assert Placeholder[..8] == "https://";
    } else if !StartsWith(imagePath.value, "http") {
      assert r == BaseUrl(env) + imagePath.value;
      assert r[..4] == BaseUrl(env)[..4];
    }
  }
}
