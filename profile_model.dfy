/** The Profile model's `avatar_url` accessor (app/Models/Profile.php): the
    disk's own url, else a public Azure blob URL assembled from the storage
    account and container settings, else the disk's configured url, else a
    local asset. */
module ProfileModel {
  import opened Text

  /** The accessor's environment. The four settings are AZURE_STORAGE_NAME,
      AZURE_STORAGE_ACCOUNT, AZURE_STORAGE_CONTAINER and
      AZURE_STORAGE_CONTAINER_NAME; None stands for an unset variable. */
  datatype AvatarEnv = AvatarEnv(diskUrl: Option<string -> string>,
                                 storageName: Option<string>, storageAccount: Option<string>,
                                 container: Option<string>, containerName: Option<string>,
                                 diskConfigUrl: Option<string>, asset: string -> string)

  /** PHP's `$a ?: $b`: the first value when it is truthy, else the second. */
  function Elvis(a: Option<string>, b: Option<string>): (r: Option<string>)
    ensures Present(r) <==> Present(a) || Present(b)
    ensures Present(a) ==> r == a
  {
    if Present(a) then a else b
  }

  function Account(env: AvatarEnv): Option<string> { Elvis(env.storageName, env.storageAccount) }

  function Container(env: AvatarEnv): Option<string> { Elvis(env.container, env.containerName) }

  /** "https://{account}.blob.core.windows.net/{container}/" . ltrim(path, '/') */
  function AzureBlobUrl(account: string, container: string, path: string): (r: string)
  {
    "https://" + account + ".blob.core.windows.net/" + container + "/" + LTrim(path, '/')
  }

  /** $profile->avatar_url: null exactly when avatar_path is empty. */
  function AvatarUrl(avatarPath: Option<string>, env: AvatarEnv): (r: Option<string>)
    ensures r.None? <==> !Present(avatarPath)
  {
    if !Present(avatarPath) then None
    else
      var path := avatarPath.value;
      if env.diskUrl.Some? then Some(env.diskUrl.value(path))
      else if Present(Account(env)) && Present(Container(env)) then
        Some(AzureBlobUrl(Account(env).value, Container(env).value, path))
      else if Present(env.diskConfigUrl) then Some(JoinUrl(env.diskConfigUrl.value, path))
      else Some(env.asset("storage/" + LTrim(path, '/')))
  }

  /** The Azure URL ends with the path stripped of its leading slashes, right
      after the container's '/', so the path's own segments are kept. */
  lemma AzureBlobUrlEndsWithPath(account: string, container: string, path: string)
    ensures var r := AzureBlobUrl(account, container, path);
      var p := LTrim(path, '/');
      |p| < |r| && r[|r| - |p|..] == p && r[|r| - |p| - 1] == '/' && (p == [] || p[0] != '/')
      && "https://" + account <= r
  {
    var p := LTrim(path, '/');
    var mid := ".blob.core.windows.net/" + container + "/";
    assert mid[|mid| - 1] == '/';
    assert AzureBlobUrl(account, container, path) == ("https://" + account) + mid + p;
    ThreeParts("https://" + account, mid, p);
  }

  /** In a + mid + p, with mid ending in '/', p is the tail right after that '/' and a is a prefix. */
  lemma ThreeParts(a: string, mid: string, p: string)
    requires mid != [] && mid[|mid| - 1] == '/'
    ensures var r := a + mid + p;
      |p| < |r| && r[|r| - |p|..] == p && r[|r| - |p| - 1] == '/' && a <= r
  {
    var r := a + mid + p;
    assert r[|r| - |p|..] == p;
    assert r[..|a|] == a;
  }

  /** The Azure branch is taken, ahead of the disk's configured url, as soon as
      both an account and a container are set under either of their names. */
  lemma AvatarUrlAzureBranch(avatarPath: Option<string>, env: AvatarEnv)
    requires Present(avatarPath) && env.diskUrl.None?
    requires Present(env.storageName) || Present(env.storageAccount)
    requires Present(env.container) || Present(env.containerName)
    ensures var acct := if Present(env.storageName) then env.storageName.value else env.storageAccount.value;
      var cont := if Present(env.container) then env.container.value else env.containerName.value;
      AvatarUrl(avatarPath, env) == Some(AzureBlobUrl(acct, cont, avatarPath.value))
  {
  }

  /** AZURE_STORAGE_NAME wins over AZURE_STORAGE_ACCOUNT when both are set. */
  lemma AvatarUrlPrefersStorageName(avatarPath: Option<string>, env: AvatarEnv)
    requires Present(avatarPath) && env.diskUrl.None?
    requires Present(env.storageName) && Present(env.storageAccount) && Present(env.container)
    ensures AvatarUrl(avatarPath, env) == Some(AzureBlobUrl(env.storageName.value, env.container.value, avatarPath.value))
  {
  }

  /** Without account or container the disk's configured url is joined with a single '/'. */
  lemma AvatarUrlDiskConfig(avatarPath: Option<string>, env: AvatarEnv)
    requires Present(avatarPath) && env.diskUrl.None?
    requires !Present(Account(env)) || !Present(Container(env))
    requires Present(env.diskConfigUrl)
    ensures AvatarUrl(avatarPath, env) == Some(JoinUrl(env.diskConfigUrl.value, avatarPath.value))
  {
  }

  /** Unlike the comic cover, the asset fallback strips leading slashes:
      "/a.jpg" is served from "storage/a.jpg". */
  lemma AvatarUrlAssetStripsLeadingSlash(env: AvatarEnv)
    requires env.diskUrl.None? && !Present(Account(env)) && !Present(env.diskConfigUrl)
    ensures AvatarUrl(Some("/a.jpg"), env) == Some(env.asset("storage/a.jpg"))
  {
    var path: string := "/a.jpg";
    var rest: string := "a.jpg";
    assert path[0] == '/' && path[1..] == rest;
    assert LTrim(path, '/') == LTrim(rest, '/');
    assert rest[0] != '/';
    assert LTrim(rest, '/') == rest;
    assert AvatarUrl(Some(path), env) == Some(env.asset("storage/" + LTrim(path, '/')));
    assert "storage/" + rest == "storage/a.jpg";
  }
}
