/**
 * The file system as the tool sees it: the source list `urls.txt`, the
 * deduplicated list `unique_proxies.txt` and the result `validated_proxies.txt`,
 * each absent or holding some text, plus whether `os.Create` and `os.Open`
 * succeed (the reasons they may fail are outside the model).
 */
module Storage {

  datatype File = Absent | Present(content: string)

  datatype Disk = Disk(urls: File, unique: File, validated: File, canCreate: bool, canOpen: bool)
}
